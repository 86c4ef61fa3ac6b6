/**
 * How far a session has come, as values: what each reader has read and committed,
 * which records the handler has accepted, and how the two belong together.
 */
module Progress {
  import opened Wrappers
  import opened Bytes
  import opened Framing
  import opened Measurements
  import opened Ordering
  import opened Decoders
  import opened Worlds
  import opened Processing

  // ---- One reader ----

  /** What a reader has read, committed and still has pending. */
  datatype View = View(fed: seq<Byte>, delivered: seq<Record>, committed: nat, closed: bool, pending: bool)

  /** A reader that has read nothing. */
  const BLANK: View := View([], [], 0, false, false)

  /** Readers only move forward: nothing read or committed is taken back. */
  ghost predicate Advances(a: View, b: View) {
    a.fed <= b.fed && a.delivered <= b.delivered && a.committed <= b.committed && (a.closed ==> b.closed)
  }

  /** The reader stands at the last complete-record boundary of what it has read. */
  ghost predicate AtBoundary(v: View, max: nat) {
    var p := ParseFile(v.fed, max);
    && !v.pending && v.delivered == p.records && v.committed == p.boundary
    && p.tail == (if v.closed then Closed else NeedMore)
  }

  /** Every complete record of the file has been handled and committed, in order. */
  ghost predicate CaughtUp(v: View, file: seq<Byte>, max: nat) {
    && AtBoundary(v, max)
    && v.delivered == ParseFile(file, max).records
    && (v.closed || v.fed == file)
  }

  /** A report with this tail has no further record, whatever is appended to it. */
  predicate IsFinal(tail: Tail) {
    tail == Invalid || tail == TooLarge
  }

  /** No record of the file can be delivered behind those that the reader has committed. */
  predicate NothingBehind(file: seq<Byte>, v: View, max: nat) {
    Judge(ParseFile(file, max), |v.delivered|).Withhold?
  }

  /** The report cannot go on, and all of its records that can be delivered have been. */
  ghost predicate Stuck(v: View, max: nat) {
    && !v.closed && v.delivered <= ParseFile(v.fed, max).records
    && (forall i :: 0 <= i < |v.delivered| ==> !v.delivered[i].closes)
    && IsFinal(ParseFile(v.fed, max).tail) && NothingBehind(v.fed, v, max)
  }

  /** A drain that failed because of the report itself; it reads no further than the fault. */
  ghost predicate Breaks(before: View, after: View, max: nat) {
    && Stuck(after, max)
    && (IsFinal(ParseFile(before.fed, max).tail) ==> after.fed == before.fed)
  }

  // ---- All readers ----

  type Views = map<GenerationID, View>

  ghost predicate AllAdvance(a: Views, b: Views) {
    forall g :: g in a ==> g in b && Advances(a[g], b[g])
  }

  lemma AllAdvanceOn(a: Views, b: Views, c: Views)
    requires AllAdvance(a, b) && AllAdvance(b, c)
    ensures AllAdvance(a, c)
  {
    forall g | g in a
      ensures g in c && Advances(a[g], c[g])
    {
      assert g in b && Advances(a[g], b[g]) && Advances(b[g], c[g]);
    }
  }

  /** Every reader has read a prefix of its file. */
  ghost predicate Follow(views: Views, w: World) {
    forall g :: g in views ==> g in w.files && views[g].fed <= w.files[g]
  }

  lemma FollowOn(views: Views, before: World, after: World)
    requires Follow(views, before) && Grew(before, after)
    ensures Follow(views, after)
  {
    forall g | g in views
      ensures g in after.files && views[g].fed <= after.files[g]
    {
      assert g in before.files && views[g].fed <= before.files[g] <= after.files[g];
    }
  }

  /**
   * The readers in `done` stand at their boundary. If nothing has been reported
   * since, those that a name leads to have handled all there is.
   */
  ghost predicate Settled(views: Views, w: World, done: set<GenerationID>, max: nat) {
    && (forall g :: g in done && g in views ==> AtBoundary(views[g], max))
    && (w.queue == [] ==>
          forall g :: g in done && g in views && w.Reaches(g) ==> g in w.files && CaughtUp(views[g], w.files[g], max))
  }

  lemma SettledOn(views: Views, before: World, after: World, done: set<GenerationID>, max: nat)
    requires before.Valid() && Settled(views, before, done, max) && Evolved(before, after)
    ensures Settled(views, after, done, max)
  {
    if after.queue == [] {
      forall g | g in done && g in views && after.Reaches(g)
        ensures g in after.files && CaughtUp(views[g], after.files[g], max)
      {
        var slot :| slot in after.names && slot <= LAST_SLOT && after.names[slot] == g;
        assert slot in before.names && before.names[slot] in before.files;
        assert before.Reaches(g);
      }
    }
  }

  lemma SettledMore(views: Views, w: World, done: set<GenerationID>, g: GenerationID, v: View, max: nat)
    requires g in views && Settled(views, w, done, max) && g in w.files && CaughtUp(v, w.files[g], max)
    ensures Settled(views[g := v], w, done + {g}, max)
  {
  }

  /**
   * The readers in `done` have read everything that their files held at a certain
   * moment, unless the report had been closed before.
   */
  ghost predicate ReadAll(views: Views, since: World, done: set<GenerationID>) {
    forall g :: g in done && g in views && g in since.files ==> views[g].closed || since.files[g] <= views[g].fed
  }

  lemma ReadAllMore(views: Views, since: World, now: World, done: set<GenerationID>, g: GenerationID, v: View, max: nat)
    requires g in views && ReadAll(views, since, done) && Grew(since, now)
    requires g in now.files && CaughtUp(v, now.files[g], max)
    ensures ReadAll(views[g := v], since, done + {g})
  {
  }

  lemma ReadAllSince(views: Views, earlier: World, since: World, done: set<GenerationID>)
    requires ReadAll(views, since, done) && Grew(earlier, since)
    ensures ReadAll(views, earlier, done)
  {
    forall g | g in done && g in views && g in earlier.files
      ensures views[g].closed || earlier.files[g] <= views[g].fed
    {
      assert earlier.files[g] <= since.files[g];
    }
  }

  /** Names lead only to generations that have a reader, if nothing has been reported. */
  ghost predicate AllKnown(known: set<GenerationID>, w: World) {
    w.queue == [] ==> forall g :: w.Reaches(g) ==> g in known
  }

  lemma AllKnownOn(known: set<GenerationID>, before: World, after: World)
    requires AllKnown(known, before) && Evolved(before, after)
    ensures AllKnown(known, after)
  {
    if after.queue == [] {
      forall g | after.Reaches(g)
        ensures g in known
      {
        var slot :| slot in after.names && slot <= LAST_SLOT && after.names[slot] == g;
        assert slot in before.names;
        assert before.Reaches(g);
      }
    }
  }

  // ---- The handler's log ----

  /** The handler calls for a list of records of one generation. */
  function Calls(mode: RecordMode, g: GenerationID, records: seq<Record>): (calls: seq<Call>)
    ensures |calls| == |records|
  {
    seq(|records|, i requires 0 <= i < |records| => Call(mode, g, records[i]))
  }

  lemma CallsAreFor(mode: RecordMode, g: GenerationID, records: seq<Record>)
    ensures forall i :: 0 <= i < |Calls(mode, g, records)| ==> Calls(mode, g, records)[i].generation == g
  {
  }

  lemma CallsAppend(mode: RecordMode, g: GenerationID, records: seq<Record>, r: Record)
    ensures Calls(mode, g, records + [r]) == Calls(mode, g, records) + [Call(mode, g, r)]
  {
  }

  lemma CallsJoin(mode: RecordMode, g: GenerationID, a: seq<Record>, b: seq<Record>, c: seq<Record>)
    requires a <= b <= c
    ensures Calls(mode, g, b[|a|..]) + Calls(mode, g, c[|b|..]) == Calls(mode, g, c[|a|..])
  {
  }

  /** The records of one generation, in the order the handler accepted them. */
  function Accepted(log: seq<Call>, g: GenerationID): seq<Record> {
    if log == [] then []
    else
      var last := log[|log| - 1];
      Accepted(log[..|log| - 1], g) + if last.generation == g then [last.record] else []
  }

  lemma {:induction false} AcceptedSplits(a: seq<Call>, b: seq<Call>, g: GenerationID)
    ensures Accepted(a + b, g) == Accepted(a, g) + Accepted(b, g)
  {
    if b == [] {
      assert a + b == a;
    } else {
      var front := b[..|b| - 1];
      assert (a + b)[..|a + b| - 1] == a + front;
      AcceptedSplits(a, front, g);
    }
  }

  lemma {:induction false} AcceptedCalls(mode: RecordMode, g: GenerationID, records: seq<Record>, h: GenerationID)
    ensures Accepted(Calls(mode, g, records), h) == if g == h then records else []
  {
    if records != [] {
      var front := records[..|records| - 1];
      assert records == front + [records[|records| - 1]];
      CallsAppend(mode, g, front, records[|records| - 1]);
      AcceptedCalls(mode, g, front, h);
      var calls := Calls(mode, g, records);
      assert calls[..|calls| - 1] == Calls(mode, g, front);
    }
  }

  lemma {:induction false} AcceptedNone(log: seq<Call>, g: GenerationID)
    requires forall i :: 0 <= i < |log| ==> log[i].generation != g
    ensures Accepted(log, g) == []
  {
    if log != [] {
      AcceptedNone(log[..|log| - 1], g);
    }
  }

  /**
   * What draining one reader has done so far: it moved on, the handler was called for
   * every record committed meanwhile, and these are counted, like the bytes read.
   */
  ghost predicate Drained(a: View, b: View, before: seq<Call>, log: seq<Call>, mode: RecordMode, g: GenerationID,
                          records: int, bytes: int) {
    && Advances(a, b)
    && log == before + Calls(mode, g, b.delivered[|a.delivered|..])
    && records == |b.delivered| - |a.delivered| && bytes == |b.fed| - |a.fed|
  }

  lemma DrainedNot(v: View, log: seq<Call>, mode: RecordMode, g: GenerationID)
    ensures Drained(v, v, log, log, mode, g, 0, 0)
  {
    assert v.delivered[|v.delivered|..] == [];
  }

  lemma DrainedMeans(a: View, b: View, before: seq<Call>, log: seq<Call>, mode: RecordMode, g: GenerationID,
                     records: int, bytes: int)
    requires Drained(a, b, before, log, mode, g, records, bytes)
    ensures Advances(a, b) && |a.delivered| <= |b.delivered|
    ensures log == before + Calls(mode, g, b.delivered[|a.delivered|..])
    ensures records == |b.delivered| - |a.delivered| && bytes == |b.fed| - |a.fed|
  {
  }

  lemma DrainedOn(a: View, b: View, c: View, before: seq<Call>, log: seq<Call>, after: seq<Call>, mode: RecordMode,
                  g: GenerationID, records: int, bytes: int)
    requires Drained(a, b, before, log, mode, g, records, bytes) && Advances(b, c)
    requires after == log + Calls(mode, g, c.delivered[|b.delivered|..])
    ensures Drained(a, c, before, after, mode, g, records + |c.delivered| - |b.delivered|, bytes + |c.fed| - |b.fed|)
  {
    hide Calls;
    CallsJoin(mode, g, a.delivered, b.delivered, c.delivered);
  }

  /**
   * The log is what the readers have committed: for each generation the accepted
   * records are exactly its committed ones, in order, each once.
   */
  ghost predicate Logged(views: Views, log: seq<Call>) {
    && (forall g :: g in views ==> Accepted(log, g) == views[g].delivered)
    && (forall i :: 0 <= i < |log| ==> log[i].generation in views)
  }

  lemma LoggedMore(views: Views, log: seq<Call>, g: GenerationID, v: View, mode: RecordMode)
    requires g in views && Logged(views, log) && views[g].delivered <= v.delivered
    ensures Logged(views[g := v], log + Calls(mode, g, v.delivered[|views[g].delivered|..]))
  {
    var more := v.delivered[|views[g].delivered|..];
    forall h | h in views[g := v]
      ensures Accepted(log + Calls(mode, g, more), h) == views[g := v][h].delivered
    {
      AcceptedSplits(log, Calls(mode, g, more), h);
      AcceptedCalls(mode, g, more, h);
    }
  }

  /** Only calls in the given mode have been added. */
  ghost predicate Extends(before: seq<Call>, after: seq<Call>, mode: RecordMode) {
    before <= after && forall i :: |before| <= i < |after| ==> after[i].mode == mode
  }

  lemma ExtendsMore(before: seq<Call>, after: seq<Call>, mode: RecordMode, g: GenerationID, records: seq<Record>)
    requires Extends(before, after, mode)
    ensures Extends(before, after + Calls(mode, g, records), mode)
  {
  }

  /** The calls go through the first `done` generations of the order, one after the other. */
  ghost predicate InTurn(calls: seq<Call>, order: seq<GenerationID>, done: nat)
    requires done <= |order|
    decreases done
  {
    if done == 0 then calls == []
    else exists m: nat :: m <= |calls| && LastTurn(calls, order, done, m)
  }

  /** The calls from the m-th on are for the last of the generations, those before in turn. */
  ghost predicate LastTurn(calls: seq<Call>, order: seq<GenerationID>, done: nat, m: nat)
    requires 0 < done <= |order| && m <= |calls|
    decreases done, 0
  {
    && InTurn(calls[..m], order, done - 1)
    && forall k :: m <= k < |calls| ==> calls[k].generation == order[done - 1]
  }

  lemma InTurnMore(calls: seq<Call>, order: seq<GenerationID>, done: nat, more: seq<Call>)
    requires done < |order| && InTurn(calls, order, done)
    requires forall k :: 0 <= k < |more| ==> more[k].generation == order[done]
    ensures InTurn(calls + more, order, done + 1)
  {
    assert (calls + more)[..|calls|] == calls;
    assert LastTurn(calls + more, order, done + 1, |calls|);
  }

  /** Generations that have not had their turn yet may as well have had an empty one. */
  lemma {:induction false} InTurnAll(calls: seq<Call>, order: seq<GenerationID>, done: nat)
    requires done <= |order| && InTurn(calls, order, done)
    ensures InTurn(calls, order, |order|)
    decreases |order| - done
  {
    if done < |order| {
      InTurnMore(calls, order, done, []);
      assert calls + [] == calls;
      InTurnAll(calls, order, done + 1);
    }
  }

  /** Of two calls in turn, the earlier one is for a generation that is not later in the order. */
  lemma {:induction false} InTurnOrders(calls: seq<Call>, order: seq<GenerationID>, done: nat, i: nat, j: nat)
      returns (a: nat, b: nat)
    requires done <= |order| && InTurn(calls, order, done) && i <= j < |calls|
    ensures a <= b < done && calls[i].generation == order[a] && calls[j].generation == order[b]
    decreases done
  {
    var m: nat :| m <= |calls| && LastTurn(calls, order, done, m);
    if j < m {
      a, b := InTurnOrders(calls[..m], order, done - 1, i, j);
    } else if i < m {
      var c;
      a, c := InTurnOrders(calls[..m], order, done - 1, i, i);
      b := done - 1;
    } else {
      a, b := done - 1, done - 1;
    }
  }

  /**
   * A drain that failed: its reader before and after it, and whether the report itself
   * is to blame.
   */
  datatype Failure = Failure(generation: GenerationID, before: View, after: View, broken: bool)

  /** What a drain that failed had accepted and read; the counts leave it out. */
  datatype Lost = Lost(records: nat, bytes: nat, failure: Option<Failure>)

  const NO_LOSS: Lost := Lost(0, 0, None)

  /** The loss is what the failed drain has accepted and read, no more and no less. */
  ghost predicate IsLossOf(lost: Lost, f: Failure, max: nat) {
    && Advances(f.before, f.after)
    && lost.records == |f.after.delivered| - |f.before.delivered|
    && lost.bytes == |f.after.fed| - |f.before.fed|
    && (f.broken ==> Breaks(f.before, f.after, max))
  }

  /** What a reader has read and committed; nothing if there is none yet. */
  function ViewAt(views: Views, g: GenerationID): View {
    if g in views then views[g] else BLANK
  }

  /** Views that have not changed since the start, for generations that come once, from the i-th on. */
  ghost predicate Untouched(start: Views, views: Views, order: seq<GenerationID>, i: nat) {
    && (forall j, k :: 0 <= j < k < |order| ==> order[j] != order[k])
    && (forall k :: i <= k < |order| ==>
          order[k] in start && order[k] in views && views[order[k]] == start[order[k]])
  }

  lemma UntouchedMore(start: Views, views: Views, order: seq<GenerationID>, i: nat, v: View)
    requires Untouched(start, views, order, i) && i < |order|
    ensures Untouched(start, views[order[i] := v], order, i + 1)
  {
  }

  /** From `start` on, only the drain that failed has been left out, and it was the only one of its reader. */
  ghost predicate Explains(lost: Lost, start: Views, views: Views, max: nat) {
    match lost.failure
    case None => lost == NO_LOSS
    case Some(f) =>
      && f.generation in views && f.after == views[f.generation] && f.before == ViewAt(start, f.generation)
      && IsLossOf(lost, f, max)
  }

  lemma NothingLost(start: Views, views: Views, max: nat)
    ensures Explains(NO_LOSS, start, views, max)
  {
  }

  lemma LossOf(a: Lost, b: Lost, f: Failure, max: nat)
    requires IsLossOf(a, f, max) && b.records == a.records && b.bytes == a.bytes
    ensures IsLossOf(b, f, max)
  {
    hide Advances, Breaks;
  }

  /** The drain of a reader that has not had its turn before explains the loss. */
  lemma ExplainsFailed(lost: Lost, f: Failure, start: Views, views: Views, order: seq<GenerationID>, i: nat, max: nat)
    requires Untouched(start, views, order, i) && i < |order| && order[i] == f.generation && f.before == views[order[i]]
    requires lost.failure == Some(f) && IsLossOf(lost, f, max)
    ensures Explains(lost, start, views[f.generation := f.after], max)
  {
    hide IsLossOf;
  }

  /** The last calls of the log are those that were lost, all for the generation that failed. */
  ghost predicate LostLast(log: seq<Call>, lost: Lost) {
    lost.records <= |log| && forall k :: |log| - lost.records <= k < |log| ==>
                               lost.failure.Some? && log[k].generation == lost.failure.value.generation
  }

  /** How a pass went: its order, how many readers had their turn without an error, and what was lost. */
  datatype Turns = Turns(order: seq<GenerationID>, taken: nat, lost: Lost)

  /**
   * The calls of a pass: those of the turns taken, in order, and behind them those that
   * the next turn had accepted when it failed.
   */
  ghost predicate TurnsOf(calls: seq<Call>, t: Turns, failed: bool) {
    && t.taken <= |t.order| && t.lost.records <= |calls|
    && InTurn(calls[..|calls| - t.lost.records], t.order, t.taken)
    && (if failed
        then t.taken < |t.order|
             && t.lost.failure.Some? && t.lost.failure.value.generation == t.order[t.taken]
             && forall k :: |calls| - t.lost.records <= k < |calls| ==> calls[k].generation == t.order[t.taken]
        else t.taken == |t.order| && t.lost == NO_LOSS)
  }

  lemma {:induction false} TurnsAreInTurn(calls: seq<Call>, t: Turns, failed: bool)
    requires TurnsOf(calls, t, failed)
    ensures InTurn(calls, t.order, |t.order|)
  {
    hide InTurn;
    var m := |calls| - t.lost.records;
    assert calls == calls[..m] + calls[m..];
    if failed {
      InTurnMore(calls[..m], t.order, t.taken, calls[m..]);
      InTurnAll(calls, t.order, t.taken + 1);
    } else {
      assert calls[..m] == calls;
    }
  }

  // ---- Bytes read ----

  /** The sum of the values of a map. */
  ghost function Sum(m: map<GenerationID, nat>): nat {
    if m == map[] then 0
    else
      var g :| g in m;
      m[g] + Sum(m - {g})
  }

  lemma {:induction false} SumWithout(m: map<GenerationID, nat>, g: GenerationID)
    requires g in m
    ensures Sum(m) == m[g] + Sum(m - {g})
    decreases |m|
  {
    var h :| h in m && Sum(m) == m[h] + Sum(m - {h});
    if h != g {
      SumWithout(m - {h}, g);
      SumWithout(m - {g}, h);
      assert m - {h} - {g} == m - {g} - {h};
    }
  }

  function Lengths(views: Views): map<GenerationID, nat> {
    map g | g in views :: |views[g].fed|
  }

  /** How many bytes have been read from all files together. */
  ghost function TotalRead(views: Views): nat {
    Sum(Lengths(views))
  }

  lemma TotalReadMore(views: Views, g: GenerationID, v: View)
    requires g in views
    ensures TotalRead(views[g := v]) == TotalRead(views) - |views[g].fed| + |v.fed|
  {
    var after := views[g := v];
    SumWithout(Lengths(views), g);
    SumWithout(Lengths(after), g);
    assert Lengths(after) - {g} == Lengths(views) - {g};
  }

  /** Only blank readers have been added. */
  ghost predicate BlanksOnly(before: Views, after: Views) {
    && (forall g :: g in before ==> g in after && after[g] == before[g])
    && (forall g :: g in after && g !in before ==> after[g] == BLANK)
  }

  lemma BlanksNone(views: Views)
    ensures BlanksOnly(views, views)
  {
  }

  lemma BlanksMore(before: Views, after: Views, g: GenerationID)
    requires BlanksOnly(before, after)
    ensures g !in after ==> BlanksOnly(before, after[g := BLANK])
  {
  }

  /** New blank readers have read nothing. */
  lemma {:induction false} BlanksReadNothing(before: Views, after: Views)
    requires BlanksOnly(before, after)
    ensures TotalRead(after) == TotalRead(before)
    decreases |after|
  {
    if g :| g in after && g !in before {
      var less := after - {g};
      BlanksReadNothing(before, less);
      SumWithout(Lengths(after), g);
      assert Lengths(after) - {g} == Lengths(less);
    } else {
      assert after == before;
    }
  }

  /** New blank readers change neither the bytes read nor the log. */
  lemma {:induction false} BlanksAdded(before: Views, after: Views, log: seq<Call>)
    requires BlanksOnly(before, after)
    ensures TotalRead(after) == TotalRead(before)
    ensures Logged(before, log) ==> Logged(after, log)
    ensures AllAdvance(before, after)
  {
    hide TotalRead, Accepted;
    BlanksReadNothing(before, after);
    if Logged(before, log) {
      forall g | g in after
        ensures Accepted(log, g) == after[g].delivered
      {
        if g !in before {
          AcceptedNone(log, g);
        }
      }
    }
  }

  // ---- One pass over the readers ----

  datatype Start = Start(views: Views, log: seq<Call>, world: World)

  /**
   * What a pass over the readers keeps, from its start to any point of it: the
   * writer may have moved, but files only grew; readers only moved forward, the log
   * is what they committed, and the totals count what was added.
   */
  ghost predicate Moved(s: Start, views: Views, log: seq<Call>, w: World, mode: RecordMode, records: nat, bytes: nat) {
    && Evolved(s.world, w)
    && Follow(views, w) && Logged(views, log)
    && views.Keys == s.views.Keys && AllAdvance(s.views, views)
    && Extends(s.log, log, mode)
    && records == |log| - |s.log|
    && bytes == TotalRead(views) - TotalRead(s.views)
  }

  lemma MovedNot(s: Start, mode: RecordMode, max: nat)
    requires Follow(s.views, s.world) && Logged(s.views, s.log)
    ensures Moved(s, s.views, s.log, s.world, mode, 0, 0)
    ensures Settled(s.views, s.world, {}, max)
  {
  }

  lemma MovedMeans(s: Start, views: Views, log: seq<Call>, w: World, mode: RecordMode, records: nat, bytes: nat)
    requires Moved(s, views, log, w, mode, records, bytes)
    ensures Evolved(s.world, w) && Follow(views, w) && Logged(views, log)
    ensures views.Keys == s.views.Keys && AllAdvance(s.views, views)
    ensures Extends(s.log, log, mode)
    ensures records == |log| - |s.log| && bytes == TotalRead(views) - TotalRead(s.views)
  {
  }

  lemma MovedGrew(s: Start, views: Views, log: seq<Call>, w: World, mode: RecordMode, records: nat, bytes: nat)
    requires Moved(s, views, log, w, mode, records, bytes)
    ensures Grew(s.world, w)
  {
  }

  lemma MovedMore(s: Start, views: Views, log: seq<Call>, w: World, mode: RecordMode, records: nat, bytes: nat,
                  g: GenerationID, v: View, after: World)
    requires Moved(s, views, log, w, mode, records, bytes)
    requires g in views && Advances(views[g], v)
    requires Evolved(w, after) && g in after.files && v.fed <= after.files[g]
    ensures var more := v.delivered[|views[g].delivered|..];
            Moved(s, views[g := v], log + Calls(mode, g, more), after, mode,
                  records + |more|, bytes + |v.fed| - |views[g].fed|)
  {
    hide Logged, Sum, Calls;
    var more := v.delivered[|views[g].delivered|..];
    EvolvedTransitive(s.world, w, after);
    FollowOn(views, w, after);
    LoggedMore(views, log, g, v, mode);
    ExtendsMore(s.log, log, mode, g, more);
    TotalReadMore(views, g, v);
    assert AllAdvance(views, views[g := v]);
    AllAdvanceOn(s.views, views, views[g := v]);
  }

  /** What draining one reader more means for the pass: it moves on, and if the drain succeeded, settles. */
  lemma ReaderDrained(s: Start, views: Views, log: seq<Call>, w: World, mode: RecordMode, records: nat, bytes: nat,
                      done: set<GenerationID>, g: GenerationID, v: View, after: World, succeeded: bool, max: nat)
    requires Moved(s, views, log, w, mode, records, bytes) && g in views && Advances(views[g], v)
    requires Settled(views, w, done, max) && ReadAll(views, s.world, done)
    requires w.Valid() && Evolved(w, after) && g in after.files && v.fed <= after.files[g]
    requires succeeded ==> CaughtUp(v, after.files[g], max)
    ensures var calls := Calls(mode, g, v.delivered[|views[g].delivered|..]);
            && Moved(s, views[g := v], log + calls, after, mode,
                     records + |calls|, bytes + |v.fed| - |views[g].fed|)
            && forall k :: 0 <= k < |calls| ==> calls[k].generation == g
    ensures succeeded ==> Settled(views[g := v], after, done + {g}, max) && ReadAll(views[g := v], s.world, done + {g})
  {
    hide Moved, Settled, ReadAll, CaughtUp, Evolved, Grew, Calls, World.Valid;
    var more := v.delivered[|views[g].delivered|..];
    CallsAreFor(mode, g, more);
    MovedMore(s, views, log, w, mode, records, bytes, g, v, after);
    if succeeded {
      SettledOn(views, w, after, done, max);
      SettledMore(views, after, done, g, v, max);
      MovedGrew(s, views[g := v], log + Calls(mode, g, more), after, mode,
                records + |more|, bytes + |v.fed| - |views[g].fed|);
      ReadAllMore(views, s.world, after, done, g, v, max);
    }
  }
}
