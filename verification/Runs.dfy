/**
 * Whole runs against a writer that appends only to its newest report and rotates at
 * most once from one scan to the next, but never during a scan: also while readers are
 * drained. The readers are drained in creation order in every pass, so the handler
 * accepts all records in creation order, over any number of rotations.
 */
module Runs {
  import opened Wrappers
  import opened Bytes
  import opened Framing
  import opened Measurements
  import opened Counters
  import opened Events
  import opened Ordering
  import opened Worlds
  import opened Processing
  import opened Snapshots
  import opened Progress
  import opened Readers
  import opened Registries
  import opened Tallies
  import opened Sessions
  import opened CreationOrder
  import opened EndToEnd
  import Exporter

  /**
   * What the writer does from one scan to the next: it appends while the scan runs;
   * while readers are drained, or after that, it appends, may rotate, and appends.
   */
  datatype Turn = Turn(
    scanned: seq<WriterStep>, before: seq<WriterStep>, rotation: Option<Span>, after: seq<WriterStep>)

  /** A turn in which the writer does nothing. */
  predicate IsIdle(turn: Turn) {
    turn.scanned == [] && turn.before == [] && turn.rotation == None && turn.after == []
  }

  /** The writer takes no step, and nothing is queued. */
  ghost predicate AtRest(env: Environment)
    reads env
  {
    env.schedule == [] && env.world.queue == []
  }

  /** The writer has stopped long enough to be caught up with. */
  predicate EndsIdle(turns: seq<Turn>) {
    |turns| >= 2 && IsIdle(turns[|turns| - 1]) && IsIdle(turns[|turns| - 2])
  }

  /** After i turns: an idle one leaves everything at rest, and a second one finds it so. */
  ghost predicate Pauses(turns: seq<Turn>, i: nat, rests: bool, quiet: bool) {
    i <= |turns| && (i > 0 && IsIdle(turns[i - 1]) ==> rests && (i > 1 && IsIdle(turns[i - 2]) ==> quiet))
  }

  lemma PausesOn(turns: seq<Turn>, i: nat, before: bool, quiet: bool, after: bool, quieter: bool)
    requires Pauses(turns, i, before, quiet) && i < |turns|
    requires IsIdle(turns[i]) ==> after && (before ==> quieter)
    ensures Pauses(turns, i + 1, after, quieter)
  {
    hide IsIdle;
  }

  lemma PausesInTheEnd(turns: seq<Turn>, rests: bool, quiet: bool)
    ensures Pauses(turns, 0, rests, quiet)
    ensures Pauses(turns, |turns|, rests, quiet) && EndsIdle(turns) ==> quiet
  {
    hide IsIdle;
  }

  /**
   * How far a run has come: the generations at the last scan, those there will be at
   * the next one, the numbered rotations, and how the writer leaves the reports until then.
   */
  datatype Trace = Trace(spans: seq<Span>, next: seq<Span>, first: nat, numbered: map<nat, nat>, end: World)

  // ---- What is tracked ----

  ghost predicate Timed(readers: map<GenerationID, GenerationReader>, spans: seq<Span>, id: nat -> GenerationID) {
    forall g: nat :: g < |spans| && id(g) in readers ==>
      spans[g].birth <= readers[id(g)].report.modified <= spans[g].until
  }

  /** The first generation that is tracked: the oldest that had a name at the first scan. */
  function FirstOf(t: Trace): nat {
    if t.numbered == map[] then Oldest(|t.next|) else t.first
  }

  ghost predicate Tracks(rotations: map<GenerationID, nat>, t: Trace, id: nat -> GenerationID) {
    && Stored(rotations, t.numbered, id)
    && (t.numbered == map[] || (t.first <= Oldest(|t.spans|) && Tracked(t.numbered, t.first, |t.spans|)))
  }

  /** The generation is one of those numbered from a to n. */
  ghost predicate IsAmong(x: GenerationID, id: nat -> GenerationID, a: nat, n: nat) {
    exists g: nat :: a <= g < n && id(g) == x
  }

  /** All calls are for generations that have been created. */
  ghost predicate OfCreated(log: seq<Call>, id: nat -> GenerationID, n: nat) {
    forall i :: 0 <= i < |log| ==> IsAmong(log[i].generation, id, 0, n)
  }

  /** The log goes through the generations in creation order. */
  ghost predicate InCreation(log: seq<Call>, id: nat -> GenerationID) {
    forall i, j, a: nat, b: nat ::
      0 <= i <= j < |log| && id(a) == log[i].generation && id(b) == log[j].generation ==> a <= b
  }

  /** All generations but the newest have been handled completely. */
  ghost predicate Finished(views: Views, w: World, id: nat -> GenerationID, n: nat, max: nat) {
    forall g: nat :: g + 1 < n && id(g) in views ==> id(g) in w.files && CaughtUp(views[id(g)], w.files[id(g)], max)
  }

  /** What a session has between two turns, the writer being anywhere in what is left of the last one. */
  ghost predicate Following(session: SourceSession, t: Trace, id: nat -> GenerationID)
    reads session`isClosed, session.env, session.env.descriptors, session.watcher
    reads session.handler, session.handler.processor, session.handler.processor.state
    reads session.registry, session.registry.readerSet`lastFingerprint, session.registry.readerSet`rotation
    reads session.registry.decoderSet
    ensures Following(session, t, id) ==> session.registry.Framed()
  {
    && session.Valid() && t.spans != [] && t.spans <= t.next && |t.next| <= |t.spans| + 1
    && session.env.promise == EndPromise(t.end, session.env.queueLimit)
    && Written(t.end, t.next, id) && Frozen(session.env.world, t.end, |t.spans|, id)
    && Known(session, t, id)
  }

  /** The generations of the last scan are tracked, and all but the newest of them are finished. */
  ghost predicate Known(session: SourceSession, t: Trace, id: nat -> GenerationID)
    requires session.registry.Framed()
    reads session.env, session.handler
    reads session.registry, session.registry.readerSet`rotation, session.registry.decoderSet
  {
    && Tracks(session.registry.Rotations(), t, id)
    && Timed(session.registry.readers, t.spans, id)
    && OfCreated(session.handler.log, id, |t.spans|) && InCreation(session.handler.log, id)
    && Finished(session.registry.Views(), session.env.world, id, |t.spans|, session.registry.maxRecordBytes)
    && (t.numbered == map[] ==> session.registry.readers == map[] && session.handler.log == [])
  }

  /** Readers only move on, the log grows in this mode, and the observer stays as it is. */
  ghost predicate Goes(a: Point, b: Point, mode: RecordMode) {
    && AllAdvance(a.views, b.views) && Extends(a.log, b.log, mode)
    && b.observed == a.observed && b.unseen == a.unseen
  }

  lemma GoesNot(a: Point, mode: RecordMode)
    ensures Goes(a, a, mode)
  {
    ExtendsNot(a.log, mode);
  }

  lemma GoesOn(a: Point, b: Point, c: Point, mode: RecordMode)
    requires Goes(a, b, mode) && Goes(b, c, mode)
    ensures Goes(a, c, mode)
  {
    hide AllAdvance, Extends;
    AllAdvanceOn(a.views, b.views, c.views);
    ExtendsOn(a.log, b.log, c.log, mode);
  }

  lemma GoesMeans(a: Point, b: Point, mode: RecordMode)
    requires Goes(a, b, mode)
    ensures AllAdvance(a.views, b.views) && Extends(a.log, b.log, mode)
    ensures b.observed == a.observed && b.unseen == a.unseen
  {
    hide AllAdvance, Extends;
  }

  // ---- The writer's part of a turn ----

  /** Moves the world outside a session on, to one whose files have only grown. */
  method MoveWorld(session: SourceSession, w: World, steps: seq<WriterStep>, ghost promise: Promise)
    requires session.Valid() && w.Valid() && Grew(session.env.world, w)
    requires forall step :: step in steps && step.Disturb? ==> step.event.Valid()
    requires Lasting(promise, session.env.queueLimit) && promise(w, steps)
    modifies session.env`world, session.env`schedule, session.env`promise
    ensures session.Valid()
    ensures session.env.world == w && session.env.schedule == steps && session.env.promise == promise
  {
    hide GenerationRegistry.Valid, RecordHandler.Valid, Lasting, Follow, Logged, Grew, World.Valid;
    ghost var views, before := session.registry.Views(), session.env.world;
    session.env.world, session.env.schedule := w, steps;
    session.env.promise := promise;
    FollowOn(views, before, w);
  }

  /** The reports after a turn's rotation, if the writer may rotate now. */
  method Rotate(w: World, spans: seq<Span>, id: nat -> GenerationID, rotation: Option<Span>, limit: nat)
    returns (steps: seq<WriterStep>, after: World, next: seq<Span>)
    requires Injective(id) && w.Valid() && Written(w, spans, id)
    ensures after == MutateAll(w, steps, limit) && forall step :: step in steps ==> !step.Disturb?
    ensures after.Valid() && Written(after, next, id)
    ensures MayRotate(w, spans, id, rotation) ==>
              steps == Rotation(id(|spans|), rotation.value.birth) && next == spans + [rotation.value]
    ensures !MayRotate(w, spans, id, rotation) ==> steps == [] && next == spans
    ensures forall g :: g in w.files ==> g in after.files && after.files[g] == w.files[g]
    ensures Frozen(after, after, |next|, id)
  {
    hide Rotated, Apart, Rotation;
    if !MayRotate(w, spans, id, rotation) {
      WrittenIsFrozen(w, spans, id);
      return [], w, spans;
    }
    steps := Rotation(id(|spans|), rotation.value.birth);
    RotationKeepsWritten(w, spans, id, rotation.value, limit);
    RotationDisturbsNothing(id(|spans|), rotation.value.birth);
    MutateAllGrows(w, steps, limit);
    WrittenIsFrozen(MutateAll(w, steps, limit), spans + [rotation.value], id);
    return steps, MutateAll(w, steps, limit), spans + [rotation.value];
  }

  /** There is a rotation to do, at a time after all others, and its generation is a new one. */
  predicate MayRotate(w: World, spans: seq<Span>, id: nat -> GenerationID, rotation: Option<Span>) {
    rotation.Some? && Apart(spans + [rotation.value]) && id(|spans|) !in w.files
  }

  lemma WrittenIsFrozen(w: World, spans: seq<Span>, id: nat -> GenerationID)
    requires w.Valid() && Written(w, spans, id)
    ensures Frozen(w, w, |spans|, id)
  {
    hide Rotated, Apart;
    forall g: nat | g + 1 < |spans|
      ensures id(g) in w.files
    {
      assert InSpan(w, id(g), spans[g]);
    }
  }

  lemma {:induction false} ShiftDisturbsNothing(k: nat)
    requires k <= LAST_SLOT
    ensures forall step :: step in Shift(k) ==> !step.Disturb?
    decreases LAST_SLOT - k
  {
    if k < LAST_SLOT {
      ShiftDisturbsNothing(k + 1);
    }
  }

  lemma RotationDisturbsNothing(g: GenerationID, time: int)
    ensures forall step :: step in Rotation(g, time) ==> !step.Disturb?
  {
    ShiftDisturbsNothing(0);
  }

  /** Appends to the newest report keep what is written, and all older files. */
  method AppendAll(w: World, spans: seq<Span>, id: nat -> GenerationID, appends: seq<WriterStep>, limit: nat)
    returns (steps: seq<WriterStep>, after: World)
    requires Injective(id) && w.Valid() && Written(w, spans, id) && spans != []
    ensures after == MutateAll(w, steps, limit) && forall step :: step in steps && step.Disturb? ==> step.event.Valid()
    ensures after.Valid() && Written(after, spans, id) && Frozen(w, after, |spans|, id)
    ensures steps == if AllAppend(appends, id(|spans| - 1), spans[|spans| - 1]) then appends else []
  {
    hide Rotated, Apart, Mutate, MutateAll, Lasting, Frozen, World.Valid;
    var newest, span := id(|spans| - 1), spans[|spans| - 1];
    steps := if AllAppend(appends, newest, span) then appends else [];
    WriterPromiseLasts(w, spans, id, limit);
    WrittenIsFrozen(w, spans, id);
    PromiseAlong(WriterPromise(w, spans, id), w, steps, limit, |steps|);
    MutateAllGrows(w, steps, limit);
    assert steps[..|steps|] == steps;
    after := MutateAll(w, steps, limit);
  }

  /** Everything that the writer does until the next scan: the steps, and what comes of them. */
  method PlanSteps(w: World, spans: seq<Span>, id: nat -> GenerationID, turn: Turn, limit: nat)
    returns (steps: seq<WriterStep>, end: World, next: seq<Span>)
    requires Injective(id) && w.Valid() && Written(w, spans, id) && spans != []
    ensures end == MutateAll(w, steps, limit) && forall step :: step in steps && step.Disturb? ==> step.event.Valid()
    ensures Written(end, next, id) && Frozen(w, end, |spans|, id)
    ensures spans <= next && |next| <= |spans| + 1 && (IsIdle(turn) ==> steps == [])
  {
    hide Rotated, Apart, Written, Mutate, MutateAll, World.Valid, AllAppend;
    var first, a := AppendAll(w, spans, id, turn.before, limit);
    var rotation, b;
    rotation, b, next := Rotate(a, spans, id, turn.rotation, limit);
    var last, c := AppendAll(b, next, id, turn.after, limit);
    MutateAllSplits(w, first, rotation, limit);
    MutateAllSplits(w, first + rotation, last, limit);
    steps, end := first + rotation + last, c;
  }

  /** While readers are drained, and until the next scan, the writer does what it does. */
  method StartDrains(session: SourceSession, id: nat -> GenerationID, spans: seq<Span>, turn: Turn, ghost start: World)
    returns (next: seq<Span>, ghost end: World)
    requires Injective(id) && session.Valid() && session.env.promise == WriterPromise(start, spans, id)
    modifies session.env`world, session.env`schedule, session.env`promise
    ensures session.Valid() && session.env.world == old(session.env.world)
    ensures session.env.promise == EndPromise(end, session.env.queueLimit)
    ensures Written(end, next, id) && Frozen(session.env.world, end, |spans|, id)
    ensures spans <= next && |next| <= |spans| + 1 && (IsIdle(turn) ==> session.env.schedule == [])
  {
    hide GenerationRegistry.Valid, RecordHandler.Valid, Lasting, Follow, Logged, World.Valid, SourceSession.Tidy,
         Mutate, MutateAll, Rotated, Apart, Frozen;
    PromiseHolds(session, start, spans, id);
    var env := session.env;
    var steps, w;
    steps, w, next := PlanSteps(env.world, spans, id, turn, env.queueLimit);
    end := w;
    EndPromiseLasts(end, env.queueLimit);
    MoveWorld(session, env.world, steps, EndPromise(end, env.queueLimit));
  }

  /** What was left of the last turn happens, and the writer is ready to append. */
  method FinishTurn(session: SourceSession, id: nat -> GenerationID, spans: seq<Span>, turn: Turn, ghost t: Trace)
    requires Injective(id) && Following(session, t, id) && t.next == spans
    modifies session.env`world, session.env`schedule, session.env`promise
    ensures session.Valid() && session.env.promise == WriterPromise(session.env.world, spans, id)
    ensures Frozen(old(session.env.world), session.env.world, |t.spans|, id)
    ensures turn.scanned == [] ==> session.env.schedule == []
    ensures old(session.env.schedule) == [] ==> session.env.world == old(session.env.world)
  {
    hide GenerationRegistry.Valid, RecordHandler.Valid, Lasting, Follow, Logged, Grew, World.Valid, SourceSession.Tidy,
         Known, Rotated, Apart, Mutate, MutateAll, GenerationRegistry.Views;
    var env := session.env;
    MutateAllGrows(env.world, env.schedule, env.queueLimit);
    var w := MutateAll(env.world, env.schedule, env.queueLimit);
    NoSteps(env.world, env.queueLimit);
    SameIsWritten(t.end, w, spans, id);
    var newest, span := id(|spans| - 1), spans[|spans| - 1];
    var steps := if AllAppend(turn.scanned, newest, span) then turn.scanned else [];
    WriterPromiseLasts(w, spans, id, env.queueLimit);
    WrittenIsFrozen(w, spans, id);
    MoveWorld(session, w, steps, WriterPromise(w, spans, id));
  }

  lemma SameIsWritten(a: World, b: World, spans: seq<Span>, id: nat -> GenerationID)
    requires Written(a, spans, id) && HoldsSame(a, b)
    ensures Written(b, spans, id)
  {
    hide Rotated, Apart;
  }

  /** Files that are in the end as they were at first have not changed in between. */
  lemma StaysFrozen(a: World, b: World, end: World, left: seq<WriterStep>, limit: nat, n: nat, id: nat -> GenerationID)
    requires Grew(a, b) && Frozen(a, end, n, id) && b.Valid()
    requires HoldsSame(MutateAll(b, left, limit), end)
    requires forall step :: step in left && step.Disturb? ==> step.event.Valid()
    ensures Frozen(a, b, n, id) && Frozen(b, end, n, id)
  {
    hide Mutate, MutateAll, World.Valid;
    MutateAllGrows(b, left, limit);
    forall g: nat | g + 1 < n
      ensures id(g) in b.files && b.files[id(g)] == a.files[id(g)]
    {
      assert a.files[id(g)] <= b.files[id(g)] <= end.files[id(g)];
    }
  }

  /** Reports are opened at a time within their generation's span. */
  lemma {:induction false} SeenInSpan(start: World, w: World, steps: seq<WriterStep>, limit: nat, spans: seq<Span>,
                                      id: nat -> GenerationID, f: ReportFile, g: nat)
    requires Injective(id) && w.Valid() && Keeps(start, w, steps, spans, id) && WasSeen(w, steps, limit, f)
    requires g < |spans| && f.generation == id(g)
    ensures spans[g].birth <= f.modified <= spans[g].until
  {
    hide Lasting, MutateAll, World.Valid, Rotated, Apart;
    var promise := WriterPromise(start, spans, id);
    var j: nat :| j <= |steps| && FoundIn(MutateAll(w, steps[..j], limit), f);
    WriterPromiseLasts(start, spans, id, limit);
    PromiseAlong(promise, w, steps, limit, j);
    assert InSpan(MutateAll(w, steps[..j], limit), id(g), spans[g]);
  }

  // ---- What a pass adds ----

  lemma AppendsAreSteady(steps: seq<WriterStep>, newest: GenerationID, span: Span)
    requires AllAppend(steps, newest, span)
    ensures Steady(steps)
  {
  }

  /** Merging what a pass finds, without a rotation meanwhile, keeps every generation tracked. */
  lemma {:induction false} TracksOn(rotations: map<GenerationID, nat>, found: seq<Discovered>, w: World,
      steps: seq<WriterStep>, limit: nat, t: Trace, next: seq<Span>, id: nat -> GenerationID) returns (u: Trace)
    requires Injective(id) && Tracks(rotations, t, id) && t.spans <= next && |next| <= |t.spans| + 1
    requires Sees(w, steps, limit, found, true) && Keeps(w, w, steps, next, id)
    ensures u.spans == next && u.numbered != map[]
    ensures Tracks(Merge(rotations, found), u, id)
    ensures Tracked(u.numbered, u.first, |next|) && u.first < |next|
    ensures u.first == if t.numbered == map[] then Oldest(|next|) else t.first
  {
    hide Covers, Merge, Scan, Tracked, Stored, Rotated, Apart, Steady, WasSeen, AllAppend;
    var n := |next|;
    AppendsAreSteady(steps, id(n - 1), next[n - 1]);
    MergeIsScan(rotations, t.numbered, found, w.names, n, id);
    if t.numbered == map[] {
      FirstScanTracks(n);
      u := Trace(next, next, Oldest(n), Scan(map[], n), w);
    } else {
      ScanTracks(t.numbered, t.first, |t.spans|, n);
      u := Trace(next, next, t.first, Scan(t.numbered, n), w);
    }
    TrackedIsKnown(u.numbered, u.first, n);
  }

  lemma TrackedIsKnown(numbered: map<nat, nat>, first: nat, n: nat)
    requires Tracked(numbered, first, n) && first < n
    ensures numbered != map[]
  {
    assert first in numbered;
  }

  /** Tracked readers are those of generations that have been created. */
  lemma TrackedReaders(rotations: map<GenerationID, nat>, t: Trace, id: nat -> GenerationID)
    requires Tracks(rotations, t, id)
    ensures forall x :: x in rotations ==> exists h: nat :: h < |t.spans| && id(h) == x
  {
  }

  /** Readers that a pass adds have been opened in the span of their generation. */
  lemma {:induction false} TimesGoOn(session: SourceSession, rotations: map<GenerationID, nat>,
      readers: map<GenerationID, GenerationReader>, found: seq<Discovered>, w: World, steps: seq<WriterStep>,
      limit: nat, spans: seq<Span>, next: seq<Span>, id: nat -> GenerationID)
    requires Injective(id) && session.Valid() && session.Added(rotations, readers, found)
    requires Sees(w, steps, limit, found, true) && w.Valid() && Keeps(w, w, steps, next, id)
    requires Timed(readers, spans, id) && spans <= next && |next| <= |spans| + 1
    requires forall x :: x in readers ==> exists h: nat :: h < |spans| && id(h) == x
    ensures Timed(session.registry.readers, next, id)
  {
    hide Covers, Merge, Rotated, Apart, Steady, WasSeen, Reports, Keeps, RecordHandler.Valid, Environment.Valid,
         GenerationReader.Valid, Follow, Logged, SourceSession.Tidy;
    var now := session.registry.readers;
    forall g: nat | g < |next| && id(g) in now
      ensures next[g].birth <= now[id(g)].report.modified <= next[g].until
    {
      if id(g) !in readers {
        SeenInSpan(w, w, steps, limit, next, id, now[id(g)].report, g);
      } else {
        var h: nat :| h < |spans| && id(h) == id(g);
        assert now[id(g)] == readers[id(g)] && g == h;
      }
    }
  }

  /** Readers opened in spans that follow each other have rising times. */
  lemma TimesRise(readers: map<GenerationID, GenerationReader>, t: Trace, id: nat -> GenerationID)
    requires Timed(readers, t.spans, id) && Apart(t.spans) && Tracked(t.numbered, t.first, |t.spans|)
    requires forall g :: g in t.numbered ==> id(g) in readers
    ensures LaterIsNewer(t.numbered, TimesOf(readers, id))
  {
  }

  // ---- The log ----

  /** A record that is accepted for a generation shows in what the log holds for it. */
  lemma {:induction false} AcceptedHas(log: seq<Call>, i: nat)
    requires i < |log|
    ensures log[i].record in Accepted(log, log[i].generation)
  {
    var n := |log| - 1;
    if i < n {
      AcceptedHas(log[..n], i);
    }
  }

  /** Nothing is accepted for a generation whose reader has not moved. */
  lemma {:induction false} NoCallsFor(log: seq<Call>, added: seq<Call>, views: Views, now: Views, g: GenerationID)
    requires Logged(views, log) && Logged(now, log + added) && g in views && g in now
    requires now[g].delivered == views[g].delivered
    ensures forall i :: 0 <= i < |added| ==> added[i].generation != g
  {
    AcceptedSplits(log, added, g);
    forall i | 0 <= i < |added|
      ensures added[i].generation != g
    {
      AcceptedHas(added, i);
    }
  }

  /** Calls that go through the generations in order, and not back behind the newest so far, continue the log. */
  lemma {:induction false} CreationGoesOn(log: seq<Call>, added: seq<Call>, id: nat -> GenerationID,
                                          first: nat, m: nat, n: nat)
    requires Injective(id) && OfCreated(log, id, m) && InCreation(log, id) && m <= n && first <= n
    requires InTurn(added, Ids(id, first, n), n - first)
    requires log == [] || forall i, g: nat :: 0 <= i < |added| && id(g) == added[i].generation ==> g + 1 >= m
    ensures OfCreated(log + added, id, n) && InCreation(log + added, id)
  {
    hide InTurn;
    var all, ids := log + added, Ids(id, first, n);
    forall i | 0 <= i < |all|
      ensures IsAmong(all[i].generation, id, 0, n)
    {
      if i >= |log| {
        var a, b := InTurnOrders(added, ids, n - first, i - |log|, i - |log|);
        assert id(first + a) == all[i].generation;
      } else {
        assert IsAmong(log[i].generation, id, 0, m);
      }
    }
    forall i, j, a: nat, b: nat | 0 <= i <= j < |all| && id(a) == all[i].generation && id(b) == all[j].generation
      ensures a <= b
    {
      if i >= |log| {
        var x, y := InTurnOrders(added, ids, n - first, i - |log|, j - |log|);
        assert id(first + x) == id(a) && id(first + y) == id(b);
      } else if j >= |log| {
        assert IsAmong(log[i].generation, id, 0, m);
        assert added[j - |log|] == all[j];
      } else {
        assert log[i] == all[i] && log[j] == all[j];
      }
    }
  }

  /** A reader that has handled a whole file cannot move while the file stays as it is. */
  lemma StaysFinished(v: View, now: View, file: seq<Byte>, max: nat)
    requires CaughtUp(v, file, max) && v.delivered <= now.delivered <= ParseFile(file, max).records
    ensures now.delivered == v.delivered
  {
    hide ParseFile;
  }

  /** A reader at its boundary that has read a whole file, or a closed one, has handled it completely. */
  lemma FinishesFile(v: View, file: seq<Byte>, max: nat)
    requires AtBoundary(v, max) && v.fed <= file && (v.closed || file <= v.fed)
    requires v.closed ==> ParseFile(file, max).records == v.delivered
    ensures CaughtUp(v, file, max)
  {
    hide ParseFile;
    assert !v.closed ==> v.fed == file;
  }

  // ---- One turn ----

  /** What a session has before the scan of a turn. */
  ghost predicate Ready(session: SourceSession, t: Trace, id: nat -> GenerationID)
    reads session`isClosed, session.env, session.env.descriptors, session.watcher
    reads session.handler, session.handler.processor, session.handler.processor.state
    reads session.registry, session.registry.readerSet`lastFingerprint, session.registry.readerSet`rotation
    reads session.registry.decoderSet
    ensures Ready(session, t, id) ==> session.registry.Framed()
  {
    && session.Valid() && t.spans != [] && t.spans <= t.next && |t.next| <= |t.spans| + 1
    && session.env.promise == WriterPromise(session.env.world, t.next, id)
    && Known(session, t, id)
  }

  lemma FrozenStaysFinished(views: Views, before: World, after: World, id: nat -> GenerationID, n: nat, max: nat)
    requires Finished(views, before, id, n, max) && Frozen(before, after, n, id)
    ensures Finished(views, after, id, n, max)
  {
    hide CaughtUp;
  }

  /** What is left of the last turn happens; everything known stays so. */
  method GetReady(session: SourceSession, id: nat -> GenerationID, spans: seq<Span>, turn: Turn, ghost t: Trace)
    requires Injective(id) && Following(session, t, id) && t.next == spans
    modifies session.env`world, session.env`schedule, session.env`promise
    ensures Ready(session, t, id) && (turn.scanned == [] ==> session.env.schedule == [])
    ensures old(session.env.schedule) == [] ==> session.env.world == old(session.env.world)
  {
    hide SourceSession.Valid, Tracks, Timed, OfCreated, InCreation, Finished, Frozen, WriterPromise, EndPromise,
         Written, GenerationRegistry.Views, GenerationRegistry.Rotations, GenerationRegistry.Framed;
    ghost var before := session.env.world;
    FinishTurn(session, id, spans, turn, t);
    FrozenStaysFinished(session.registry.Views(), before, session.env.world, id, |t.spans|,
                        session.registry.maxRecordBytes);
  }

  /** After a scan: everything is tracked again, with the generation that a rotation may have added. */
  lemma {:induction false} PassTracks(session: SourceSession, rotations: map<GenerationID, nat>,
      readers: map<GenerationID, GenerationReader>, found: seq<Discovered>, w: World, steps: seq<WriterStep>,
      t: Trace, next: seq<Span>, id: nat -> GenerationID) returns (u: Trace)
    requires Injective(id) && session.Valid() && session.Added(rotations, readers, found)
    requires Sees(w, steps, session.env.queueLimit, found, true) && w.Valid() && Keeps(w, w, steps, next, id)
    requires Tracks(rotations, t, id) && Timed(readers, t.spans, id) && readers.Keys == rotations.Keys
    requires t.spans <= next && |next| <= |t.spans| + 1
    ensures u.spans == next && u.numbered != map[]
    ensures Tracks(session.registry.Rotations(), u, id) && Timed(session.registry.readers, next, id)
    ensures Tracked(u.numbered, u.first, |next|) && u.first < |next|
    ensures u.first == if t.numbered == map[] then Oldest(|next|) else t.first
  {
    hide Covers, Merge, Sees, Keeps, Tracks, Timed, Tracked, Reports, SourceSession.Valid;
    u := TracksOn(rotations, found, w, steps, session.env.queueLimit, t, next, id);
    TrackedReaders(rotations, t, id);
    TimesGoOn(session, rotations, readers, found, w, steps, session.env.queueLimit, t.spans, next, id);
  }

  /** The order of the pass is creation order. */
  lemma {:induction false} PassOrder(session: SourceSession, order: seq<GenerationID>, u: Trace,
                                     id: nat -> GenerationID)
    requires session.registry.Framed() && session.registry.IsOldestFirst(order) && Injective(id)
    requires Tracks(session.registry.Rotations(), u, id) && Timed(session.registry.readers, u.spans, id)
    requires Apart(u.spans) && Tracked(u.numbered, u.first, |u.spans|) && u.first < |u.spans|
    ensures order == Ids(id, u.first, |u.spans|)
  {
    hide GenerationRegistry.IsOldestFirst, Timed, Apart, Tracked;
    KnownReaders(session.registry, u.numbered, id, u.first, |u.spans|);
    TimesRise(session.registry.readers, u, id);
    OldestFirstIsCreationOrder(session.registry, order, u.numbered, id, u.first, |u.spans|);
  }

  /** The calls of the pass continue the log in creation order. */
  lemma {:induction false} PassLog(session: SourceSession, views: Views, log: seq<Call>, w: World, t: Trace,
                                   u: Trace, id: nat -> GenerationID)
    requires Injective(id) && session.Valid() && Logged(views, log) && log <= session.handler.log
    requires AllAdvance(views, session.registry.Views())
    requires OfCreated(log, id, |t.spans|) && InCreation(log, id)
    requires Finished(views, w, id, |t.spans|, session.registry.maxRecordBytes)
    requires Frozen(w, session.env.world, |u.spans|, id) && t.spans <= u.spans && u.first <= |u.spans|
    requires InTurn(session.handler.log[|log|..], Ids(id, u.first, |u.spans|), |u.spans| - u.first)
    requires log == [] || forall g: nat :: u.first <= g && g + 1 < |t.spans| ==> id(g) in views
    ensures OfCreated(session.handler.log, id, |u.spans|) && InCreation(session.handler.log, id)
  {
    hide GenerationRegistry.Valid, RecordHandler.Valid, Environment.Valid, SourceSession.Tidy, Follow, Logged,
         OfCreated, InCreation, InTurn, CaughtUp;
    var now, added := session.registry.Views(), session.handler.log[|log|..];
    assert session.handler.log == log + added;
    if log != [] {
      forall i, g: nat | 0 <= i < |added| && id(g) == added[i].generation
        ensures g + 1 >= |t.spans|
      {
        if g + 1 < |t.spans| {
          var a, b := InTurnOrders(added, Ids(id, u.first, |u.spans|), |u.spans| - u.first, i, i);
          assert id(u.first + a) == id(g);
          NoneAdded(session, views, log, added, w, |u.spans|, id, g);
          assert false;
        }
      }
    }
    CreationGoesOn(log, added, id, u.first, |t.spans|, |u.spans|);
  }

  /** Nothing is added for a generation that was finished. */
  lemma {:induction false} NoneAdded(session: SourceSession, views: Views, log: seq<Call>, added: seq<Call>, w: World,
                                     n: nat, id: nat -> GenerationID, g: nat)
    requires session.Valid() && Logged(views, log) && session.handler.log == log + added
    requires AllAdvance(views, session.registry.Views())
    requires g + 1 < n && Frozen(w, session.env.world, n, id) && id(g) in views
    requires CaughtUp(views[id(g)], w.files[id(g)], session.registry.maxRecordBytes)
    ensures forall i :: 0 <= i < |added| ==> added[i].generation != id(g)
  {
    hide GenerationRegistry.Valid, RecordHandler.Valid, Environment.Valid, SourceSession.Tidy, Follow, Logged, CaughtUp,
         ParseFile;
    var now := session.registry.Views();
    DeliveredFirst(session, id(g));
    StaysFinished(views[id(g)], now[id(g)], w.files[id(g)], session.registry.maxRecordBytes);
    NoCallsFor(log, added, views, now, id(g));
  }

  /** After the pass, all generations but the newest are finished. */
  lemma {:induction false} PassFinishes(session: SourceSession, w: World, n: nat, id: nat -> GenerationID)
    requires session.Valid() && session.AllAtBoundary() && Frozen(w, session.env.world, n, id)
    requires ReadAll(session.registry.Views(), w, session.registry.readers.Keys)
    ensures Finished(session.registry.Views(), session.env.world, id, n, session.registry.maxRecordBytes)
  {
    hide GenerationRegistry.Valid, RecordHandler.Valid, Environment.Valid, SourceSession.Tidy, Logged, CaughtUp,
         AtBoundary, ParseFile;
    var views, max := session.registry.Views(), session.registry.maxRecordBytes;
    forall g: nat | g + 1 < n && id(g) in views
      ensures id(g) in session.env.world.files && CaughtUp(views[id(g)], session.env.world.files[id(g)], max)
    {
      var file := session.env.world.files[id(g)];
      ClosedDelivered(session, id(g));
      FinishesFile(views[id(g)], file, max);
    }
  }

  lemma {:induction false} ClosedDelivered(session: SourceSession, g: GenerationID)
    requires session.Valid() && g in session.registry.readers
    ensures g in session.env.world.files
    ensures var v := session.registry.Views()[g];
            v.closed ==> ParseFile(session.env.world.files[g], session.registry.maxRecordBytes).records == v.delivered
  {
    hide ParseFile, RecordHandler.Valid, Environment.Valid, SourceSession.Tidy, Logged;
    var reader := session.registry.readers[g];
    FollowsFile(session.registry.Views(), session.env.world, g);
    if reader.decoder.closed {
      reader.ClosedIsFinal(session.env.world.files[g]);
    }
  }

  lemma KnownBefore(rotations: map<GenerationID, nat>, t: Trace, id: nat -> GenerationID)
    requires Tracks(rotations, t, id) && t.numbered != map[]
    ensures forall g: nat :: t.first <= g < |t.spans| ==> id(g) in rotations
  {
  }

  lemma SameKeys(session: SourceSession)
    requires session.registry.Framed()
    ensures session.registry.readers.Keys == session.registry.Rotations().Keys == session.registry.Views().Keys
  {
  }

  /** While the writer keeps its promise, its older files stay as they were. */
  lemma PromiseHolds(session: SourceSession, start: World, spans: seq<Span>, id: nat -> GenerationID)
    requires session.Valid() && session.env.promise == WriterPromise(start, spans, id)
    ensures session.env.world.Valid()
    ensures Keeps(start, session.env.world, session.env.schedule, spans, id)
    ensures Frozen(start, session.env.world, |spans|, id) && Apart(spans) && Written(session.env.world, spans, id)
  {
    hide GenerationRegistry.Valid, RecordHandler.Valid, SourceSession.Tidy, Follow, Logged, Lasting;
  }

  lemma LogsCalls(session: SourceSession)
    requires session.Valid()
    ensures Logged(session.registry.Views(), session.handler.log)
  {
  }

  /** The scan of a turn: the generations there are now are tracked. */
  method ScanTurn(session: SourceSession, id: nat -> GenerationID, ghost t: Trace)
    returns (error: Option<Error>, ghost u: Trace)
    requires Injective(id) && Ready(session, t, id)
    modifies session.env`world, session.env`schedule, session.env`descriptors, session.env.incidents
    modifies session.registry`readers, session.registry`readerSet, session.registry`decoderSet
    modifies session.registry.readerSet`rotation
    ensures session.Valid()
    ensures fresh(session.registry.readerSet - old(session.registry.readerSet))
    ensures fresh(session.registry.decoderSet - old(session.registry.decoderSet))
    ensures AllAdvance(old(session.registry.Views()), session.registry.Views())
    ensures session.env.promise == WriterPromise(old(session.env.world), t.next, id)
    ensures Frozen(old(session.env.world), session.env.world, |t.next|, id) && Apart(t.next)
    ensures Written(session.env.world, t.next, id)
    ensures StopsPass(error) && Reported(error, old(session.env.incidents.log), session.env.incidents.log)
    ensures old(session.env.schedule) == [] ==>
              session.env.schedule == [] && session.env.world == old(session.env.world)
    ensures error == None ==>
              && AllKnown(session.registry.readers.Keys, session.env.world)
              && u.spans == t.next && u.numbered != map[] && u.first < |t.next| && u.first == FirstOf(t)
              && Tracks(session.registry.Rotations(), u, id) && Tracked(u.numbered, u.first, |t.next|)
              && Timed(session.registry.readers, t.next, id)
              && (t.numbered != map[] ==>
                    forall g: nat :: t.first <= g < |t.spans| ==> id(g) in old(session.registry.readers))
  {
    hide StopsPass, Reported,
         SourceSession.Valid, Tracks, Tracked, Timed, OfCreated, InCreation, Finished, Frozen, WriterPromise, Keeps,
         Sees, AllAdvance, AllKnown, TotalRead, BlanksOnly, World.Valid, Apart, Written, Evolved, SourceSession.Added,
         GenerationRegistry.Views, GenerationRegistry.Rotations, GenerationRegistry.Framed;
    u := t;
    ghost var w, steps, rotations := session.env.world, session.env.schedule, session.registry.Rotations();
    ghost var readers := session.registry.readers;
    PromiseHolds(session, w, t.next, id);
    SameKeys(session);
    var registered;
    ghost var found;
    registered, error, found := session.Discover();
    ScanRests(readers.Keys, w, steps, session.registry.readers.Keys, session.env.world, session.env.schedule,
              registered, error);
    ScanStops(error);
    PromiseHolds(session, w, t.next, id);
    if error == None {
      u := PassTracks(session, rotations, readers, found, w, steps, t, t.next, id);
      if t.numbered != map[] {
        KnownBefore(rotations, t, id);
      }
    }
  }

  lemma ScanRests(known: set<GenerationID>, w: World, steps: seq<WriterStep>, now: set<GenerationID>, after: World,
                  left: seq<WriterStep>, registered: nat, error: Option<Error>)
    requires Finds(known, w, steps, now, after, left, registered, error)
    ensures steps == [] ==> left == [] && after == w
  {
  }

  lemma DrainsEmpty(w: World, steps: seq<WriterStep>, after: World, left: seq<WriterStep>, events: DirectoryEvents,
                    error: Option<Error>)
    requires Empties(w, steps, after, left, events, error)
    ensures steps == [] && error == None ==>
              left == [] && after.queue == [] && (w.queue == [] ==> !events.changed)
  {
  }

  /** What a turn has scanned and handled continues what the turns before it had. */
  lemma {:induction false} TurnFollows(session: SourceSession, views: Views, log: seq<Call>, w: World, scanned: World,
      order: seq<GenerationID>, mode: RecordMode, t: Trace, u: Trace, id: nat -> GenerationID)
    requires Injective(id) && session.Valid() && session.AllAtBoundary() && t.spans != []
    requires t.spans <= u.spans && |u.spans| <= |t.spans| + 1 && u.spans <= u.next && |u.next| <= |u.spans| + 1
    requires session.env.promise == EndPromise(u.end, session.env.queueLimit)
    requires Written(u.end, u.next, id) && Apart(u.spans)
    requires Frozen(w, scanned, |u.spans|, id) && Grew(scanned, session.env.world)
    requires Frozen(scanned, u.end, |u.spans|, id)
    requires Tracks(session.registry.Rotations(), u, id) && Timed(session.registry.readers, u.spans, id)
    requires Tracked(u.numbered, u.first, |u.spans|) && u.first < |u.spans| && u.numbered != map[]
    requires OfCreated(log, id, |t.spans|) && InCreation(log, id) && Logged(views, log)
    requires Finished(views, w, id, |t.spans|, session.registry.maxRecordBytes)
    requires t.numbered == map[] ==> log == []
    requires t.numbered != map[] ==>
               u.first == t.first && forall g: nat :: t.first <= g < |t.spans| ==> id(g) in views
    requires AllAdvance(views, session.registry.Views()) && Extends(log, session.handler.log, mode)
    requires ReadAll(session.registry.Views(), scanned, session.registry.readers.Keys)
    requires session.registry.IsOldestFirst(order) && |log| <= |session.handler.log|
    requires InTurn(session.handler.log[|log|..], order, |order|)
    ensures Following(session, u, id)
  {
    hide SourceSession.Valid, Tracks, Tracked, Timed, OfCreated, InCreation, Finished, Frozen, EndPromise, Grew,
         InTurn, AllAdvance, Extends, ReadAll, Logged, World.Valid, Apart, Written, SourceSession.AllAtBoundary,
         GenerationRegistry.IsOldestFirst, GenerationRegistry.Views, GenerationRegistry.Rotations,
         GenerationRegistry.Framed;
    EndHolds(session, scanned, u.end, |u.spans|, id);
    FrozenOn(w, scanned, session.env.world, |u.spans|, id);
    PassOrder(session, order, u, id);
    ExtendsGrows(log, session.handler.log, mode);
    PassLog(session, views, log, w, t, u, id);
    PassFinishes(session, scanned, |u.spans|, id);
  }

  /** While the writer keeps its promise of how it ends, what stays in the end has stayed. */
  lemma EndHolds(session: SourceSession, since: World, end: World, n: nat, id: nat -> GenerationID)
    requires session.Valid() && session.env.promise == EndPromise(end, session.env.queueLimit)
    requires Grew(since, session.env.world) && Frozen(since, end, n, id)
    ensures Frozen(since, session.env.world, n, id) && Frozen(session.env.world, end, n, id)
  {
    hide GenerationRegistry.Valid, RecordHandler.Valid, SourceSession.Tidy, Follow, Logged, Lasting, Frozen, Grew,
         MutateAll, Mutate, World.Valid;
    StaysFrozen(since, session.env.world, end, session.env.schedule, session.env.queueLimit, n, id);
  }

  lemma TracksAgain(rotations: map<GenerationID, nat>, t: Trace, u: Trace, id: nat -> GenerationID)
    requires Tracks(rotations, t, id) && u.spans == t.spans && u.numbered == t.numbered && u.first == t.first
    ensures Tracks(rotations, u, id)
  {
  }

  lemma FrozenOn(a: World, b: World, c: World, n: nat, id: nat -> GenerationID)
    requires Frozen(a, b, n, id) && Frozen(b, c, n, id)
    ensures Frozen(a, c, n, id)
  {
  }

  /** If nothing has been reported since the newest generation had a name, it still has one. */
  lemma StillReached(before: World, after: World, spans: seq<Span>, id: nat -> GenerationID)
    requires Written(before, spans, id) && spans != [] && Evolved(before, after) && after.queue == []
    ensures after.Reaches(id(|spans| - 1))
  {
    hide Apart;
    assert 0 in after.names && after.names[0] == id(|spans| - 1);
  }

  /** Nothing is missed, and the newest generation of the last scan has a name. */
  ghost predicate Complete(session: SourceSession, t: Trace, id: nat -> GenerationID)
    requires session.registry.Framed()
    reads session.env, session.registry, session.registry.decoderSet
  {
    session.NothingMissed() && t.spans != [] && session.env.world.Reaches(id(|t.spans| - 1))
  }

  /**
   * The drains of a turn: the writer goes on, and may rotate at any moment. If they
   * succeed, the log has gone on in creation order; without a notification nothing is
   * missed.
   */
  method DrainTurn(session: SourceSession, id: nat -> GenerationID, spans: seq<Span>, turn: Turn, mode: RecordMode,
                   ghost start: World, ghost u: Trace)
    returns (next: seq<Span>, quiet: bool, error: Option<Error>, ghost order: seq<GenerationID>, ghost v: Trace)
    requires Injective(id) && session.Valid() && session.env.promise == WriterPromise(start, spans, id)
    requires AllKnown(session.registry.readers.Keys, session.env.world) && u.spans == spans && spans != []
    requires Written(session.env.world, spans, id)
    modifies session.env`world, session.env`schedule, session.env`promise, session.env.incidents
    modifies session.handler, session.handler.processor, session.handler.processor.state
    modifies session.registry.readerSet`lastFingerprint, session.registry.decoderSet
    ensures session.Valid()
    ensures AllAdvance(old(session.registry.Views()), session.registry.Views())
    ensures Extends(old(session.handler.log), session.handler.log, mode)
    ensures session.handler.processor.observed == old(session.handler.processor.observed)
    ensures session.handler.processor.unseen == old(session.handler.processor.unseen)
    ensures StopsPass(error) && Reported(error, old(session.env.incidents.log), session.env.incidents.log)
    ensures IsIdle(turn) && error == None ==>
              AtRest(session.env) && (old(session.env.world).queue == [] ==> quiet)
    ensures v == u.(next := next, end := v.end) && (quiet ==> error == None && Complete(session, v, id))
    ensures error == None ==>
              && spans <= next && |next| <= |spans| + 1
              && session.env.promise == EndPromise(v.end, session.env.queueLimit)
              && Written(v.end, next, id) && Frozen(old(session.env.world), v.end, |spans|, id)
              && Grew(old(session.env.world), session.env.world) && session.AllAtBoundary()
              && ReadAll(session.registry.Views(), old(session.env.world), session.registry.readers.Keys)
              && session.registry.IsOldestFirst(order) && |old(session.handler.log)| <= |session.handler.log|
              && InTurn(session.handler.log[|old(session.handler.log)|..], order, |order|)
  {
    hide StopsPass, Reported,
         SourceSession.Valid, Frozen, WriterPromise, EndPromise, InTurn, AllAdvance, AllKnown, Extends, TotalRead,
         ReadAll, World.Valid, Written, Grew, Evolved, SourceSession.AllAtBoundary, SourceSession.NothingMissed,
         LostLast, Explains, Blames, GenerationRegistry.IsOldestFirst, GenerationRegistry.Views,
         GenerationRegistry.Rotations, GenerationRegistry.Framed, World.Reaches;
    ghost var w, end, log := session.env.world, session.env.world, session.handler.log;
    next, end := StartDrains(session, id, spans, turn, start);
    v := u.(next := next, end := end);
    ghost var steps := session.env.schedule;
    var records, bytes, events;
    ghost var turns;
    records, bytes, events, error, turns := session.HandleAll(mode);
    order := turns.order;
    ExtendsGrows(log, session.handler.log, mode);
    quiet := error == None && !events.changed;
    DrainsEmpty(w, steps, session.env.world, session.env.schedule, events, error);
    if quiet {
      StillReached(w, session.env.world, spans, id);
    }
  }

  /** The rest of a turn after its scan, with what the whole turn ensures since its start. */
  method FollowScan(session: SourceSession, id: nat -> GenerationID, spans: seq<Span>, turn: Turn, mode: RecordMode,
                    ghost views: Views, ghost w: World, ghost incidents: seq<Incident>, ghost t: Trace, ghost s: Trace)
    returns (next: seq<Span>, quiet: bool, error: Option<Error>, ghost u: Trace)
    requires Injective(id) && session.Valid() && session.env.promise == WriterPromise(w, spans, id)
    requires AllKnown(session.registry.readers.Keys, session.env.world) && s.spans == spans && spans != []
    requires Written(session.env.world, spans, id) && Apart(spans) && Frozen(w, session.env.world, |spans|, id)
    requires Tracks(session.registry.Rotations(), s, id) && Timed(session.registry.readers, spans, id)
    requires s.numbered != map[] && s.first < |spans| && Tracked(s.numbered, s.first, |spans|)
    requires t.spans != [] && t.spans <= spans && |spans| <= |t.spans| + 1
    requires Logged(views, session.handler.log) && AllAdvance(views, session.registry.Views())
    requires OfCreated(session.handler.log, id, |t.spans|) && InCreation(session.handler.log, id)
    requires Finished(views, w, id, |t.spans|, session.registry.maxRecordBytes)
    requires t.numbered == map[] ==> session.handler.log == []
    requires t.numbered != map[] ==>
               s.first == t.first && forall g: nat :: t.first <= g < |t.spans| ==> id(g) in views
    requires Reported(None, incidents, session.env.incidents.log)
    modifies session.env`world, session.env`schedule, session.env`promise, session.env.incidents
    modifies session.handler, session.handler.processor, session.handler.processor.state
    modifies session.registry.readerSet`lastFingerprint, session.registry.decoderSet
    ensures session.Valid() && (quiet ==> error == None && Complete(session, u, id))
    ensures AllAdvance(views, session.registry.Views())
    ensures Extends(old(session.handler.log), session.handler.log, mode)
    ensures session.handler.processor.observed == old(session.handler.processor.observed)
    ensures session.handler.processor.unseen == old(session.handler.processor.unseen)
    ensures StopsPass(error) && Reported(error, incidents, session.env.incidents.log)
    ensures IsIdle(turn) && error == None ==>
              AtRest(session.env) && (old(session.env.world).queue == [] ==> quiet)
    ensures error == None ==>
              && Following(session, u, id) && u.spans == spans && u.next == next && u.first == s.first
              && u.numbered == s.numbered && session.AllAtBoundary()
  {
    hide StopsPass, Reported, SourceSession.Valid, Tracks, Tracked, Timed, OfCreated, InCreation, Finished, Frozen,
         WriterPromise, EndPromise, InTurn, AllAdvance, AllKnown, Extends, ReadAll, Logged, Apart, Written, Grew,
         Complete, SourceSession.AllAtBoundary, GenerationRegistry.IsOldestFirst, GenerationRegistry.Views,
         GenerationRegistry.Rotations, GenerationRegistry.Framed, Following, IsIdle, AtRest;
    ghost var log, scanned, known := session.handler.log, session.env.world, session.registry.Views();
    ghost var more := session.env.incidents.log;
    ghost var order;
    next, quiet, error, order, u := DrainTurn(session, id, spans, turn, mode, w, s);
    ReportedOn(error, incidents, more, session.env.incidents.log);
    AllAdvanceOn(views, known, session.registry.Views());
    if error == None {
      TracksAgain(session.registry.Rotations(), s, u, id);
      TurnFollows(session, views, log, w, scanned, order, mode, t, u, id);
    }
  }

  /**
   * One turn: the rest of the last one, a scan, and the drains, during which, or after
   * which, the writer may rotate once. If it succeeds, everything is tracked as before,
   * and the log has gone on in creation order; without a notification nothing is missed.
   */
  method TakeTurn(session: SourceSession, id: nat -> GenerationID, spans: seq<Span>, turn: Turn, mode: RecordMode,
                  ghost t: Trace)
    returns (next: seq<Span>, quiet: bool, error: Option<Error>, ghost u: Trace)
    requires Injective(id) && Following(session, t, id) && t.next == spans
    modifies session.env`world, session.env`schedule, session.env`promise, session.env`descriptors
    modifies session.env.incidents
    modifies session.handler, session.handler.processor, session.handler.processor.state
    modifies session.registry`readers, session.registry`readerSet, session.registry`decoderSet
    modifies session.registry.readerSet, session.registry.decoderSet
    ensures session.Valid() && (quiet ==> error == None && Complete(session, u, id))
    ensures fresh(session.registry.readerSet - old(session.registry.readerSet))
    ensures fresh(session.registry.decoderSet - old(session.registry.decoderSet))
    ensures Goes(old(session.Now()), session.Now(), mode)
    ensures StopsPass(error) && Reported(error, old(session.env.incidents.log), session.env.incidents.log)
    ensures IsIdle(turn) && error == None ==>
              AtRest(session.env) && (old(AtRest(session.env)) ==> quiet)
    ensures error == None ==>
              && Following(session, u, id) && u.spans == spans && u.next == next && u.first == FirstOf(t)
              && u.numbered != map[] && session.AllAtBoundary()
  {
    hide StopsPass, Reported, SourceSession.Valid, Tracks, Tracked, Timed, OfCreated, InCreation, Finished, Frozen,
         WriterPromise, AllAdvance, AllKnown, Extends, Logged, Apart, Written, Complete, SourceSession.AllAtBoundary,
         GenerationRegistry.IsOldestFirst, GenerationRegistry.Views, GenerationRegistry.Rotations,
         GenerationRegistry.Framed, Following, IsIdle;
    next, quiet, u := spans, false, t;
    IdleScansNothing(turn);
    GetReady(session, id, spans, turn, t);
    ghost var start, w, incidents := session.Now(), session.env.world, session.env.incidents.log;
    SameKeys(session);
    LogsCalls(session);
    GoesNot(start, mode);
    error, u := ScanTurn(session, id, t);
    if error.Some? {
      return;
    }
    next, quiet, error, u := FollowScan(session, id, spans, turn, mode, start.views, w, incidents, t, u);
  }

  lemma IdleScansNothing(turn: Turn)
    ensures IsIdle(turn) ==> turn.scanned == []
  {
  }

  lemma ExtendsGrows(before: seq<Call>, after: seq<Call>, mode: RecordMode)
    requires Extends(before, after, mode)
    ensures before <= after
  {
  }

  /** The i-th of several turns, with what holds since the first one. */
  method NextTurn(session: SourceSession, id: nat -> GenerationID, spans: seq<Span>, turns: seq<Turn>, i: nat,
                  mode: RecordMode, quiet: bool, ghost start: Point, ghost incidents: seq<Incident>, ghost first: nat,
                  ghost t: Trace)
    returns (next: seq<Span>, quieter: bool, error: Option<Error>, ghost u: Trace)
    requires Injective(id) && Following(session, t, id) && t.next == spans && i < |turns| && FirstOf(t) == first
    requires Pauses(turns, i, AtRest(session.env), quiet) && Goes(start, session.Now(), mode)
    requires Reported(None, incidents, session.env.incidents.log)
    modifies session.env`world, session.env`schedule, session.env`promise, session.env`descriptors
    modifies session.env.incidents
    modifies session.handler, session.handler.processor, session.handler.processor.state
    modifies session.registry`readers, session.registry`readerSet, session.registry`decoderSet
    modifies session.registry.readerSet, session.registry.decoderSet
    ensures session.Valid() && (quieter ==> error == None && Complete(session, u, id))
    ensures fresh(session.registry.readerSet - old(session.registry.readerSet))
    ensures fresh(session.registry.decoderSet - old(session.registry.decoderSet))
    ensures Goes(start, session.Now(), mode)
    ensures StopsPass(error) && Reported(error, incidents, session.env.incidents.log)
    ensures error == None ==>
              && Following(session, u, id) && u.next == next && Pauses(turns, i + 1, AtRest(session.env), quieter)
              && session.AllAtBoundary() && u.numbered != map[] && u.first == first == FirstOf(u)
  {
    hide IsIdle, AtRest, Pauses, Goes, SourceSession.Now, StopsPass, Reported, IsOutside, IsBroken,
         SourceSession.Valid, SourceSession.AllAtBoundary, Complete, GenerationRegistry.Views,
         GenerationRegistry.Framed, Following;
    ghost var rested, before, more := AtRest(session.env), session.Now(), session.env.incidents.log;
    next, quieter, error, u := TakeTurn(session, id, spans, turns[i], mode, t);
    ReportedOn(error, incidents, more, session.env.incidents.log);
    GoesOn(start, before, session.Now(), mode);
    if error == None {
      PausesOn(turns, i, rested, quiet, AtRest(session.env), quieter);
    }
  }

  /** Turns one after the other, until one fails. */
  method TakeTurns(session: SourceSession, id: nat -> GenerationID, spans: seq<Span>, turns: seq<Turn>,
                   mode: RecordMode, ghost t: Trace)
    returns (next: seq<Span>, quiet: bool, error: Option<Error>, ghost u: Trace)
    requires Injective(id) && Following(session, t, id) && t.next == spans
    modifies session.env`world, session.env`schedule, session.env`promise, session.env`descriptors
    modifies session.env.incidents
    modifies session.handler, session.handler.processor, session.handler.processor.state
    modifies session.registry`readers, session.registry`readerSet, session.registry`decoderSet
    modifies session.registry.readerSet, session.registry.decoderSet
    ensures session.Valid() && (quiet ==> error == None && Complete(session, u, id))
    ensures fresh(session.registry.readerSet - old(session.registry.readerSet))
    ensures fresh(session.registry.decoderSet - old(session.registry.decoderSet))
    ensures Goes(old(session.Now()), session.Now(), mode)
    ensures StopsPass(error) && Reported(error, old(session.env.incidents.log), session.env.incidents.log)
    ensures error == None && EndsIdle(turns) ==> quiet
    ensures error == None ==> Following(session, u, id) && u.next == next && FirstOf(u) == FirstOf(t)
    ensures error == None && turns == [] ==> u == t && (old(session.AllAtBoundary()) ==> session.AllAtBoundary())
    ensures error == None && turns != [] ==> u.numbered != map[] && session.AllAtBoundary()
  {
    hide IsDone, Environment.Valid, RecordHandler.Valid, GenerationRegistry.Valid, IsIdle, AtRest, EndsIdle, Pauses,
         Goes, SourceSession.Now, StopsPass, Reported, IsOutside, IsBroken, SourceSession.Valid,
         SourceSession.AllAtBoundary, Complete, GenerationRegistry.Views, GenerationRegistry.Framed, Following,
         FirstOf;
    next, quiet, error, u := spans, false, None, t;
    ghost var start, incidents := session.Now(), session.env.incidents.log;
    FollowingIsValid(session, t, id);
    GoesNot(start, mode);
    DoneStops(None, incidents);
    ScanStops(None);
    PausesInTheEnd(turns, AtRest(session.env), quiet);
    for i := 0 to |turns|
      invariant Pauses(turns, i, AtRest(session.env), quiet)
      invariant Reported(None, incidents, session.env.incidents.log) && StopsPass(error)
      invariant Following(session, u, id) && u.next == next && session.Valid() && FirstOf(u) == FirstOf(t)
      invariant fresh(session.registry.readerSet - old(session.registry.readerSet))
      invariant fresh(session.registry.decoderSet - old(session.registry.decoderSet))
      invariant Goes(start, session.Now(), mode)
      invariant error == None && (quiet ==> Complete(session, u, id))
      invariant i == 0 ==> u == t && (old(session.AllAtBoundary()) ==> session.AllAtBoundary())
      invariant i > 0 ==> u.numbered != map[] && session.AllAtBoundary()
    {
      next, quiet, error, u := NextTurn(session, id, next, turns, i, mode, quiet, start, incidents, FirstOf(t), u);
      if error.Some? {
        return;
      }
    }
    PausesInTheEnd(turns, AtRest(session.env), quiet);
  }

  lemma FollowingIsValid(session: SourceSession, t: Trace, id: nat -> GenerationID)
    requires Following(session, t, id)
    ensures session.Valid()
  {
  }

  /** What is known before the first turn: how the writer leaves its reports until the first scan. */
  ghost predicate Begun(session: SourceSession, spans: seq<Span>, end: World, id: nat -> GenerationID)
    requires session.registry.Framed()
    reads session.env, session.registry, session.handler
  {
    && session.registry.readers == map[] && session.handler.log == [] && spans != []
    && session.env.promise == EndPromise(end, session.env.queueLimit)
    && Written(end, spans, id) && Frozen(session.env.world, end, |spans|, id)
  }

  /** A session that has just started follows a writer that keeps its promise. */
  lemma StartsFollowing(session: SourceSession, spans: seq<Span>, end: World, id: nat -> GenerationID)
    requires session.Valid() && Begun(session, spans, end, id)
    ensures Following(session, Trace(spans, spans, 0, map[], end), id)
  {
    hide SourceSession.Valid, EndPromise, Written, Frozen;
  }

  // ---- Whole runs ----

  /** A log in creation order goes through its generations one by one. */
  lemma {:induction false} CreationIsOneByOne(log: seq<Call>, id: nat -> GenerationID, a: nat, n: nat)
    requires InCreation(log, id) && a <= n
    requires forall i :: 0 <= i < |log| ==> IsAmong(log[i].generation, id, a, n)
    ensures OneByOne(log, Ids(id, a, n))
  {
    hide InCreation;
    var ids := Ids(id, a, n);
    forall i | 0 <= i < |log|
      ensures log[i].generation in ids
    {
      assert IsAmong(log[i].generation, id, a, n);
      var g: nat :| a <= g < n && id(g) == log[i].generation;
      assert ids[g - a] == log[i].generation;
    }
    forall i, j, x, y | 0 <= i <= j < |log| && 0 <= x < |ids| && 0 <= y < |ids|
      ensures ids[x] == log[i].generation && ids[y] == log[j].generation ==> x <= y
    {
      assert ids[x] == id(a + x) && ids[y] == id(a + y);
      if ids[x] == log[i].generation && ids[y] == log[j].generation {
        CreationOrders(log, id, i, j, a + x, a + y);
      }
    }
  }

  lemma CreationOrders(log: seq<Call>, id: nat -> GenerationID, i: nat, j: nat, a: nat, b: nat)
    requires InCreation(log, id) && i <= j < |log| && id(a) == log[i].generation && id(b) == log[j].generation
    ensures a <= b
  {
  }

  /** While following, the log goes through all known generations one by one. */
  lemma {:induction false} FollowingIsOneByOne(session: SourceSession, t: Trace, id: nat -> GenerationID)
    requires Following(session, t, id) && t.numbered != map[]
    ensures t.first <= |t.spans| && OneByOne(session.handler.log, Ids(id, t.first, |t.spans|))
    ensures forall g :: g in Ids(id, t.first, |t.spans|) ==> g in session.registry.readers
  {
    hide GenerationRegistry.Valid, RecordHandler.Valid, Environment.Valid, SourceSession.Tidy, Follow, EndPromise,
         Written, Frozen, Timed, Finished, InCreation, OfCreated, OneByOne, Stored, Tracked, Logged;
    var log, n := session.handler.log, |t.spans|;
    KnownReaders(session.registry, t.numbered, id, t.first, n);
    LogsReaders(session);
    forall i | 0 <= i < |log|
      ensures IsAmong(log[i].generation, id, t.first, n)
    {
      assert log[i].generation in session.registry.readers;
    }
    CreationIsOneByOne(log, id, t.first, n);
  }

  lemma LogsReaders(session: SourceSession)
    requires session.Valid()
    ensures forall i :: 0 <= i < |session.handler.log| ==> session.handler.log[i].generation in session.registry.readers
  {
    hide GenerationRegistry.Valid, RecordHandler.Valid, Environment.Valid, SourceSession.Tidy, Follow;
  }

  /**
   * If nothing is missed, all generations since the first scan are handled completely,
   * those that have lost their names included.
   */
  lemma {:induction false} AllHandled(session: SourceSession, t: Trace, id: nat -> GenerationID)
    requires Following(session, t, id) && t.numbered != map[] && Complete(session, t, id)
    ensures t.first <= |t.spans|
    ensures forall g :: g in Ids(id, t.first, |t.spans|) ==> session.HandledAll(g)
  {
    hide GenerationRegistry.Valid, RecordHandler.Valid, SourceSession.Tidy, Follow, Logged, Timed, InCreation,
         OfCreated, CaughtUp, Environment.Valid, EndPromise, Stored, Tracked, Written, Frozen, World.Reaches;
    var n := |t.spans|;
    KnownReaders(session.registry, t.numbered, id, t.first, n);
    forall g: nat | t.first <= g < n
      ensures session.HandledAll(id(g))
    {
      assert id(g) in session.registry.Views();
    }
  }

  /** Publishes the cutover and attaches the observer. */
  method Cutover(session: SourceSession, id: nat -> GenerationID, ghost t: Trace)
    requires Following(session, t, id) && session.AllAtBoundary() && Extends([], session.handler.log, Baseline)
    requires !session.handler.processor.observed
    modifies session`cutover, session`baselineLog, session`cutoverViews
    modifies session.handler.processor`observed, session.handler.processor`recorded, session.handler.processor`unseen
    ensures session.IsLive() && Following(session, t, id) && session.AllAtBoundary()
    ensures session.handler.processor.observed && session.handler.processor.unseen == 0
  {
    hide SourceSession.Valid, SourceSession.IsLive, GenerationRegistry.Framed, GenerationRegistry.Views, MarksOf,
         GenerationRegistry.Rotations, GenerationRegistry.IsOldestFirst, SourceSession.AllAtBoundary, Extends,
         Known, EndPromise, Written, Frozen;
    session.PublishCutover();
    var attached := Exporter.AttachObserver(session);
    session.LiveMeans();
  }

  /** The first report is created in a directory that has none. */
  method CreateFirst(session: SourceSession, id: nat -> GenerationID, span: Span)
    requires Injective(id) && session.Valid() && Written(session.env.world, [], id)
    requires session.registry.readers == map[] && session.handler.log == []
    requires id(0) !in session.env.world.files && span.birth <= span.until
    modifies session.env`world, session.env`schedule, session.env`promise
    ensures session.Valid() && Begun(session, [span], session.env.world, id)
  {
    hide GenerationRegistry.Valid, RecordHandler.Valid, Lasting, Follow, Logged, Grew, World.Valid, SourceSession.Tidy,
         Rotated, Rotation, MutateAll;
    var w, limit, steps := session.env.world, session.env.queueLimit, Rotation(id(0), span.birth);
    assert [] + [span] == [span];
    RotationKeepsWritten(w, [], id, span, limit);
    RotationDisturbsNothing(id(0), span.birth);
    MutateAllGrows(w, steps, limit);
    var after := MutateAll(w, steps, limit);
    WrittenIsFrozen(after, [span], id);
    EndPromiseLasts(after, limit);
    assert MutateAll(after, [], limit) == after by {
      NoSteps(after, limit);
    }
    MoveWorld(session, after, [], EndPromise(after, limit));
  }

  lemma NoSteps(w: World, limit: nat)
    ensures MutateAll(w, [], limit) == w
  {
  }

  /** Turns in baseline mode from the start of a session, then the cutover, where the observer is attached. */
  method FollowToCutover(session: SourceSession, id: nat -> GenerationID, spans: seq<Span>, turns: seq<Turn>,
                         ghost end: World)
    returns (next: seq<Span>, error: Option<Error>, ghost t: Trace)
    requires Injective(id) && session.Valid() && Begun(session, spans, end, id) && turns != []
    requires !session.handler.processor.observed
    modifies session`cutover, session`baselineLog, session`cutoverViews
    modifies session.env`world, session.env`schedule, session.env`promise, session.env`descriptors
    modifies session.env.incidents
    modifies session.handler, session.handler.processor, session.handler.processor.state
    modifies session.registry`readers, session.registry`readerSet, session.registry`decoderSet
    modifies session.registry.readerSet, session.registry.decoderSet
    ensures fresh(session.registry.readerSet - old(session.registry.readerSet))
    ensures fresh(session.registry.decoderSet - old(session.registry.decoderSet))
    ensures StopsPass(error) && Reported(error, old(session.env.incidents.log), session.env.incidents.log)
    ensures error == None ==>
              && session.IsLive() && Following(session, t, id) && t.next == next
              && t.numbered != map[] && session.AllAtBoundary() && t.first == Oldest(|spans|)
              && session.handler.processor.observed && session.handler.processor.unseen == 0
  {
    hide StopsPass, Reported,
         SourceSession.Valid, SourceSession.IsLive, SourceSession.AllAtBoundary, SourceSession.NothingMissed, Following,
         Begun, Complete, AllAdvance, Extends, GenerationRegistry.Views, GenerationRegistry.Framed;
    StartsFollowing(session, spans, end, id);
    BeginsEmpty(session, spans, end, id);
    t := Trace(spans, spans, 0, map[], end);
    ghost var start := session.Now();
    var quiet;
    next, quiet, error, t := TakeTurns(session, id, spans, turns, Baseline, t);
    GoesMeans(start, session.Now(), Baseline);
    if error == None {
      Cutover(session, id, t);
    }
  }

  lemma BeginsEmpty(session: SourceSession, spans: seq<Span>, end: World, id: nat -> GenerationID)
    requires session.registry.Framed() && Begun(session, spans, end, id)
    ensures session.handler.log == []
  {
  }

  /** Turns in live mode. */
  method FollowLive(session: SourceSession, id: nat -> GenerationID, spans: seq<Span>, turns: seq<Turn>, ghost t: Trace)
    returns (quiet: bool, error: Option<Error>, ghost u: Trace)
    requires Injective(id) && session.IsLive() && Following(session, t, id) && t.next == spans
    requires t.numbered != map[] && session.AllAtBoundary()
    modifies session.env`world, session.env`schedule, session.env`promise, session.env`descriptors
    modifies session.env.incidents
    modifies session.handler, session.handler.processor, session.handler.processor.state
    modifies session.registry`readers, session.registry`readerSet, session.registry`decoderSet
    modifies session.registry.readerSet, session.registry.decoderSet
    ensures session.IsLive() && (quiet ==> error == None && Complete(session, u, id))
    ensures session.handler.processor.observed == old(session.handler.processor.observed)
    ensures session.handler.processor.unseen == old(session.handler.processor.unseen)
    ensures StopsPass(error) && Reported(error, old(session.env.incidents.log), session.env.incidents.log)
    ensures error == None && EndsIdle(turns) ==> quiet
    ensures error == None ==>
              Following(session, u, id) && u.numbered != map[] && session.AllAtBoundary() && u.first == t.first
  {
    hide StopsPass, Reported,
         SourceSession.Valid, SourceSession.IsLive, SourceSession.AllAtBoundary, Complete, Following,
         AllAdvance, Extends, CutoverAt, GenerationRegistry.Views, GenerationRegistry.Framed;
    ghost var start := session.Now();
    session.LiveMeans();
    var next;
    next, quiet, error, u := TakeTurns(session, id, spans, turns, Live, t);
    GoesMeans(start, session.Now(), Live);
    session.StaysLive(start.views, start.log);
  }

  /**
   * A whole run against a writer that rotates at most once from one scan to the next:
   * turns in baseline mode, the cutover, where the observer is attached, and turns in
   * live mode. If it fails nowhere, the session is live, the observer has been told of
   * everything that was emitted, and all reports have been handled in creation order;
   * without a notification in the end nothing is missed.
   */
  method FollowWriter(session: SourceSession, id: nat -> GenerationID, spans: seq<Span>, before: seq<Turn>,
                      after: seq<Turn>, ghost end: World)
    returns (quiet: bool, error: Option<Error>, ghost t: Trace)
    requires Injective(id) && session.Valid() && Begun(session, spans, end, id) && before != []
    requires !session.handler.processor.observed
    modifies session`cutover, session`baselineLog, session`cutoverViews
    modifies session.env`world, session.env`schedule, session.env`promise, session.env`descriptors
    modifies session.env.incidents
    modifies session.handler, session.handler.processor, session.handler.processor.state
    modifies session.registry`readers, session.registry`readerSet, session.registry`decoderSet
    modifies session.registry.readerSet, session.registry.decoderSet
    ensures StopsPass(error) && Reported(error, old(session.env.incidents.log), session.env.incidents.log)
    ensures error == None && EndsIdle(after) ==> quiet
    ensures error == None ==>
              && session.IsLive() && Following(session, t, id) && t.numbered != map[] && session.AllAtBoundary()
              && session.handler.processor.observed && session.handler.processor.unseen == 0
              && t.first == Oldest(|spans|) && (quiet ==> Complete(session, t, id))
  {
    hide StopsPass, Reported,
         SourceSession.Valid, SourceSession.IsLive, SourceSession.AllAtBoundary, Complete, Following, Begun,
         GenerationRegistry.Framed;
    var next;
    quiet := false;
    ghost var incidents := session.env.incidents.log;
    next, error, t := FollowToCutover(session, id, spans, before, end);
    if error == None {
      ghost var more := session.env.incidents.log;
      quiet, error, t := FollowLive(session, id, next, after, t);
      ReportedOn(error, incidents, more, session.env.incidents.log);
    }
  }

  /**
   * What the observer has been told of a series in the end: the sum of its positive
   * differences over the committed parts of all reports, in creation order, counting
   * only those behind each report's cutover offset.
   */
  lemma {:induction false} TotalInCreationOrder(session: SourceSession, t: Trace, id: nat -> GenerationID, s: Series)
    requires session.IsLive() && Following(session, t, id) && t.numbered != map[]
    requires session.handler.processor.observed && session.handler.processor.unseen == 0
    ensures t.first <= |t.spans|
    ensures var ids := Ids(id, t.first, |t.spans|);
            var files := Committed(session.registry.Views(), session.env.world.files);
            && (forall g :: g in ids ==> g in files)
            && Total(session.handler.processor.recorded, s)
               == ReportsTotal(session.handler.processor.codec, Parsed(files, session.registry.maxRecordBytes),
                               session.cutoverViews, ids, s)
  {
    hide SourceSession.IsLive, Following, Total, ReportsTotal, OneByOne, Committed, Parsed;
    FollowingIsOneByOne(session, t, id);
    Exporter.ToldTotalIsCommittedTotal(session, Ids(id, t.first, |t.spans|), s);
  }

  /** If nothing is missed in the end, the same over the whole files. */
  lemma {:induction false} FileTotalInCreationOrder(session: SourceSession, t: Trace, id: nat -> GenerationID,
                                                    s: Series)
    requires session.IsLive() && Following(session, t, id) && t.numbered != map[] && Complete(session, t, id)
    requires session.handler.processor.observed && session.handler.processor.unseen == 0
    ensures t.first <= |t.spans|
    ensures var ids := Ids(id, t.first, |t.spans|);
            && (forall g :: g in ids ==> g in session.env.world.files)
            && Total(session.handler.processor.recorded, s)
               == ReportsTotal(session.handler.processor.codec,
                               Parsed(session.env.world.files, session.registry.maxRecordBytes),
                               session.cutoverViews, ids, s)
  {
    hide SourceSession.IsLive, Following, Total, ReportsTotal, OneByOne, Parsed, Complete,
         SourceSession.HandledAll;
    FollowingIsOneByOne(session, t, id);
    AllHandled(session, t, id);
    Exporter.ToldTotalIsFileTotal(session, Ids(id, t.first, |t.spans|), s);
  }

  /** The observer has been told the total of every series over all files, in creation order, behind the cutover. */
  ghost predicate ToldAll(session: SourceSession, t: Trace, id: nat -> GenerationID)
    reads session, session.env, session.registry, session.handler, session.handler.processor
  {
    && t.first <= |t.spans| && (forall g :: g in Ids(id, t.first, |t.spans|) ==> g in session.env.world.files)
    && forall s :: Total(session.handler.processor.recorded, s)
                   == ReportsTotal(session.handler.processor.codec,
                                   Parsed(session.env.world.files, session.registry.maxRecordBytes),
                                   session.cutoverViews, Ids(id, t.first, |t.spans|), s)
  }

  lemma {:induction false} ToldInCreationOrder(session: SourceSession, t: Trace, id: nat -> GenerationID)
    requires session.IsLive() && Following(session, t, id) && t.numbered != map[] && Complete(session, t, id)
    requires session.handler.processor.observed && session.handler.processor.unseen == 0
    ensures ToldAll(session, t, id)
  {
    hide SourceSession.IsLive, Following, Total, ReportsTotal, Complete;
    FileTotalInCreationOrder(session, t, id, Series(StorageIO, NoComponent, NoDirection, NoOperation));
    forall s: Series
      ensures Total(session.handler.processor.recorded, s)
           == ReportsTotal(session.handler.processor.codec,
                           Parsed(session.env.world.files, session.registry.maxRecordBytes),
                           session.cutoverViews, Ids(id, t.first, |t.spans|), s)
    {
      FileTotalInCreationOrder(session, t, id, s);
    }
  }

  /**
   * From an empty directory to the end of a run: a new session, the first report, the
   * baseline, the cutover and the live turns. If it fails nowhere and ends without a
   * notification, the observer has been told all there is in the files, once.
   */
  method RunFromEmpty(env: Environment, codec: Codec, maxRecordBytes: nat, creationTime: int,
                      id: nat -> GenerationID, span: Span, before: seq<Turn>, after: seq<Turn>)
    returns (session: SourceSession, quiet: bool, error: Option<Error>, ghost t: Trace)
    requires env.Valid() && (forall f :: f in env.descriptors ==> !f.isOpen) && 0 < maxRecordBytes
    requires Injective(id) && Written(env.world, [], id) && id(0) !in env.world.files && span.birth <= span.until
    requires before != []
    modifies env`world, env`schedule, env`promise, env`descriptors, env.incidents
    ensures session.env == env && session.handler.processor.codec == codec
    ensures StopsPass(error) && Reported(error, old(env.incidents.log), env.incidents.log)
    ensures env.incidents.log == old(env.incidents.log) && !IsBroken(error) ==> error == None
    ensures error == None && EndsIdle(after) ==> quiet
    ensures error == None ==> session.IsLive() && Following(session, t, id) && t.numbered != map[] && t.first == 0
    ensures error == None && quiet ==> ToldAll(session, t, id)
  {
    hide StopsPass, Reported,
         SourceSession.Valid, SourceSession.IsLive, SourceSession.AllAtBoundary, Complete, Following, Begun, Written,
         GenerationRegistry.Framed, GenerationRegistry.Valid, Environment.Valid, Processor.Valid, ToldAll;
    var processor := new Processor(codec);
    var handler := new RecordHandler(processor);
    SameIsWritten(env.world, env.world.(queue := []), [], id);
    session := new SourceSession.Start(env, handler, maxRecordBytes, creationTime);
    CreateFirst(session, id, span);
    ghost var incidents := env.incidents.log;
    quiet, error, t := FollowWriter(session, id, [span], before, after, env.world);
    StopsWithReason(error, incidents, env.incidents.log);
    if error == None && quiet {
      ToldInCreationOrder(session, t, id);
    }
  }
}
