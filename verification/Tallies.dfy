/**
 * Counts of a live session: what a call reports, against what the readers and the
 * handler's log show. Counts leave out exactly the drain that failed; when a report
 * is to blame, its bytes and its watermark tell whether that drain had handled anything.
 */
module Tallies {
  import opened Bytes
  import opened Framing
  import opened Measurements
  import opened Events
  import opened Ordering
  import opened Worlds
  import opened Processing
  import opened Progress

  datatype LiveResult = LiveResult(records: nat, bytes: nat, newGenerations: nat, notificationOverflows: nat) {
    function Plus(other: LiveResult): LiveResult {
      LiveResult(records + other.records, bytes + other.bytes,
                 newGenerations + other.newGenerations, notificationOverflows + other.notificationOverflows)
    }
  }

  /** What a pass found: new generations, records handled, bytes read, notifications. */
  datatype PassResult = PassResult(registered: nat, records: nat, bytes: nat, events: DirectoryEvents) {
    /** What the pass adds to the counts, before and after an overflow is counted. */
    function Handled(): LiveResult {
      LiveResult(records, bytes, registered, 0)
    }

    function Counted(): LiveResult {
      Handled().Plus(LiveResult(0, 0, 0, if events.overflowed then 1 else 0))
    }
  }

  lemma CountsRegistered(result: LiveResult, r: PassResult)
    ensures result.Plus(r.Counted()).newGenerations == result.newGenerations + r.registered
  {
  }

  lemma PlusNothing(r: LiveResult)
    ensures r.Plus(LiveResult(0, 0, 0, 0)) == r
  {
  }

  lemma ExtendsNot(log: seq<Call>, mode: RecordMode)
    ensures Extends(log, log, mode)
  {
  }

  lemma ExtendsOn(a: seq<Call>, b: seq<Call>, c: seq<Call>, mode: RecordMode)
    requires Extends(a, b, mode) && Extends(b, c, mode)
    ensures Extends(a, c, mode)
  {
  }

  // ---- The calls of the drain that failed ----

  lemma LostTurn(before: seq<Call>, after: seq<Call>, mode: RecordMode, turns: Turns, failed: bool)
    requires Extends(before, after, mode) && TurnsOf(after[|before|..], turns, failed)
    ensures LostLast(after, turns.lost) && (!failed ==> turns.lost == NO_LOSS)
  {
    hide InTurn;
    var calls, n := after[|before|..], turns.lost.records;
    assert forall k :: |after| - n <= k < |after| ==> after[k] == calls[k - |before|];
  }

  /** A loss since a scan is one since before the scan, which has added blank readers only. */
  lemma ExplainsBlanks(lost: Lost, start: Views, known: Views, views: Views, max: nat)
    requires BlanksOnly(start, known) && Explains(lost, known, views, max)
    ensures Explains(lost, start, views, max)
  {
    hide IsLossOf;
  }

  // ---- From one point of a session to a later one ----

  /**
   * What readers have read and committed, what the handler has accepted, how many
   * overflows were counted, whether and since when an observer is attached, the
   * reports as they are, and the size limit.
   */
  datatype Point = Point(
    views: Views, log: seq<Call>, overflows: nat, observed: bool, unseen: nat, world: World, max: nat)

  /** The reader is at its boundary, and has read all that its file held at the earlier point. */
  ghost predicate ReadSince(a: Point, g: GenerationID, v: View) {
    AtBoundary(v, a.max) && (g in a.world.files ==> v.closed || a.world.files[g] <= v.fed)
  }

  ghost predicate Swept(a: Point, b: Point) {
    forall g :: g in b.views ==> ReadSince(a, g, b.views[g])
  }

  /** Nothing has been read since, or every reader has been drained. */
  ghost predicate Clean(a: Point, b: Point) {
    b.views == a.views || Swept(a, b)
  }

  lemma SweptOn(a: Point, b: Point, c: Point)
    requires Grew(a.world, b.world) && a.max == b.max && Swept(b, c)
    ensures Swept(a, c)
  {
    hide AtBoundary;
    forall g | g in c.views
      ensures ReadSince(a, g, c.views[g])
    {
      assert ReadSince(b, g, c.views[g]);
      if g in a.world.files {
        assert a.world.files[g] <= b.world.files[g];
      }
    }
  }

  /**
   * A loss between two points is that of one drain, the last of its reader. That drain
   * started with what its reader had at the first point, or after a drain that came to
   * the end of what the file held then.
   */
  ghost predicate Accounts(a: Point, b: Point, lost: Lost) {
    match lost.failure
    case None => lost == NO_LOSS
    case Some(f) =>
      && f.generation in b.views && f.after == b.views[f.generation] && IsLossOf(lost, f, b.max)
      && f.generation in b.world.files && f.after.fed <= b.world.files[f.generation]
      && Advances(ViewAt(a.views, f.generation), f.before)
      && (f.before == ViewAt(a.views, f.generation) || ReadSince(a, f.generation, f.before))
  }

  /**
   * From one point to a later one, readers only moved forward, only live calls were
   * added to the log, and the observer stayed attached where it was. The counts are
   * what was added (records accepted, bytes read, generations found, overflows),
   * except for what the drain that failed had accepted and read: the last calls of
   * the log, and all for its generation.
   */
  ghost predicate Tally(a: Point, b: Point, r: LiveResult, lost: Lost) {
    && AllAdvance(a.views, b.views) && Extends(a.log, b.log, Live)
    && b.observed == a.observed && b.unseen == a.unseen && b.max == a.max && Grew(a.world, b.world)
    && r.newGenerations == |b.views| - |a.views|
    && r.notificationOverflows == b.overflows - a.overflows
    && r.records + lost.records == |b.log| - |a.log|
    && r.bytes + lost.bytes == TotalRead(b.views) - TotalRead(a.views)
    && LostLast(b.log, lost) && Accounts(a, b, lost)
  }

  lemma TallyNot(a: Point)
    ensures Tally(a, a, LiveResult(0, 0, 0, 0), NO_LOSS) && Clean(a, a)
  {
  }

  lemma AccountsFor(a: Point, b: Point, lost: Lost)
    requires Explains(lost, a.views, b.views, b.max) && AllAdvance(a.views, b.views) && Follow(b.views, b.world)
    ensures Accounts(a, b, lost)
  {
    hide IsLossOf;
  }

  /**
   * What a pass, or a part of one, takes a session from one point to the next: readers
   * move on, the log grows in its mode by what is counted and what was lost, and the
   * loss is explained by the readers' states at both points.
   */
  ghost predicate Takes(a: Point, b: Point, mode: RecordMode, registered: nat, records: nat, bytes: nat, lost: Lost) {
    && AllAdvance(a.views, b.views) && Extends(a.log, b.log, mode) && Grew(a.world, b.world)
    && b.observed == a.observed && b.unseen == a.unseen && b.overflows == a.overflows && b.max == a.max
    && registered == |b.views| - |a.views|
    && records + lost.records == |b.log| - |a.log| && LostLast(b.log, lost)
    && bytes + lost.bytes == TotalRead(b.views) - TotalRead(a.views)
    && Explains(lost, a.views, b.views, b.max)
  }

  /** What a scan does: blank readers are added. */
  ghost predicate Scans(a: Point, b: Point, registered: nat) {
    && BlanksOnly(a.views, b.views) && AllAdvance(a.views, b.views) && Grew(a.world, b.world)
    && b == a.(views := b.views, world := b.world)
    && registered == |b.views| - |a.views| && TotalRead(b.views) == TotalRead(a.views)
  }

  lemma ScanGrows(a: Point, b: Point, registered: nat)
    requires Scans(a, b, registered)
    ensures Grew(a.world, b.world)
  {
    hide Grew;
  }

  lemma ScanTakes(a: Point, b: Point, mode: RecordMode, registered: nat)
    requires Scans(a, b, registered)
    ensures Takes(a, b, mode, registered, 0, 0, NO_LOSS)
  {
    hide AllAdvance, Grew, TotalRead, BlanksOnly;
  }

  lemma HandlingTakes(a: Point, b: Point, c: Point, mode: RecordMode, registered: nat, records: nat, bytes: nat,
                      lost: Lost)
    requires Scans(a, b, registered) && Takes(b, c, mode, 0, records, bytes, lost)
    ensures Takes(a, c, mode, registered, records, bytes, lost)
  {
    hide AllAdvance, Grew, TotalRead, BlanksOnly, Explains, LostLast, Extends;
    AllAdvanceOn(a.views, b.views, c.views);
    GrewTransitive(a.world, b.world, c.world);
    ExplainsBlanks(lost, a.views, b.views, c.views, c.max);
  }

  /** What a live pass takes is a tally. */
  lemma PassIsTallied(a: Point, b: Point, r: PassResult, lost: Lost)
    requires Takes(a, b, Live, r.registered, r.records, r.bytes, lost) && Follow(b.views, b.world)
    ensures Tally(a, b, r.Handled(), lost)
  {
    hide TotalRead, AllAdvance, Extends, LostLast, Explains, Accounts, Follow, Grew;
    AccountsFor(a, b, lost);
  }

  lemma TakesMeans(a: Point, b: Point, mode: RecordMode, registered: nat, records: nat, bytes: nat, lost: Lost)
    requires Takes(a, b, mode, registered, records, bytes, lost)
    ensures AllAdvance(a.views, b.views) && Extends(a.log, b.log, mode) && b.observed == a.observed
  {
    hide AllAdvance, Extends;
  }

  lemma PassSweeps(a: Point, b: Point)
    requires forall g :: g in b.views ==> AtBoundary(b.views[g], a.max)
    requires ReadAll(b.views, a.world, b.views.Keys)
    ensures Swept(a, b)
  {
    hide AtBoundary;
  }

  lemma NothingCounted(a: Point)
    ensures Tally(a, a, PassResult(0, 0, 0, NO_EVENTS).Counted(), NO_LOSS)
  {
    hide Tally;
    TallyNot(a);
  }

  lemma CountedIsHandled(a: Point, b: Point, r: PassResult, lost: Lost)
    requires Tally(a, b, r.Handled(), lost)
    ensures !r.events.overflowed ==> Tally(a, b, r.Counted(), lost)
  {
    hide Tally;
  }

  lemma TallyOverflow(a: Point, b: Point, r: PassResult, lost: Lost)
    requires Tally(a, b, r.Handled(), lost) && r.events.overflowed
    ensures Tally(a, b.(overflows := b.overflows + 1), r.Counted(), lost)
  {
    hide TotalRead, AllAdvance, Extends, LostLast, Grew, IsLossOf, ReadSince, Advances;
  }

  lemma SweptOverflow(a: Point, b: Point)
    requires Swept(a, b)
    ensures Swept(a, b.(overflows := b.overflows + 1))
  {
    hide ReadSince;
  }

  lemma AccountsOn(a: Point, b: Point, c: Point, lost: Lost)
    requires AllAdvance(a.views, b.views) && Clean(a, b) && Accounts(b, c, lost)
    requires Grew(a.world, b.world) && a.max == b.max
    ensures Accounts(a, c, lost)
  {
    hide IsLossOf, AtBoundary;
    if lost.failure.Some? && b.views != a.views {
      var f := lost.failure.value;
      if f.before == ViewAt(b.views, f.generation) {
        if f.generation in b.views {
          assert ReadSince(a, f.generation, f.before);
        }
      } else if f.generation in a.world.files {
        assert a.world.files[f.generation] <= b.world.files[f.generation];
      }
    }
  }

  lemma TallyOn(a: Point, b: Point, c: Point, r: LiveResult, more: LiveResult, lost: Lost)
    requires Tally(a, b, r, NO_LOSS) && Clean(a, b) && Tally(b, c, more, lost)
    ensures Tally(a, c, r.Plus(more), lost)
  {
    hide TotalRead, AllAdvance, Extends, LostLast, Accounts, Clean, Grew;
    AllAdvanceOn(a.views, b.views, c.views);
    ExtendsOn(a.log, b.log, c.log, Live);
    GrewTransitive(a.world, b.world, c.world);
    AccountsOn(a, b, c, lost);
  }

  /** After a stretch that ended with every reader drained, so does the whole. */
  lemma TallySweeps(a: Point, b: Point, c: Point, r: LiveResult)
    requires Tally(a, b, r, NO_LOSS) && Swept(b, c)
    ensures Swept(a, c) && Clean(a, c)
  {
    hide TotalRead, AllAdvance, Extends, LostLast, Accounts, Grew, Swept;
    SweptOn(a, b, c);
  }

  // ---- When counts are exact ----

  /** What a report that cannot go on still has to deliver is settled: more bytes change nothing. */
  lemma {:induction false} FinalDecides(fed: seq<Byte>, file: seq<Byte>, v: View, max: nat)
    requires fed <= file && IsFinal(ParseFile(fed, max).tail)
    ensures IsFinal(ParseFile(file, max).tail)
    ensures NothingBehind(fed, v, max) <==> NothingBehind(file, v, max)
  {
    hide ParseFile;
    AppendNeverRevises(fed, file[|fed|..], max);
    assert fed + file[|fed|..] == file;
    ClosingEndsReport(fed, max);
  }

  /** A drain that comes to a stop in a malformed report has handled something unless nothing was left. */
  lemma {:induction false} StuckHandled(before: View, after: View, max: nat)
    requires Advances(before, after) && Stuck(after, max)
    ensures |after.delivered| == |before.delivered| <==> NothingBehind(after.fed, before, max)
  {
    hide ParseFile;
    var p, k := ParseFile(after.fed, max), |before.delivered|;
    if k < |after.delivered| {
      assert p.records[k] == after.delivered[k];
    }
  }

  /** It reads something unless the fault had been read before. */
  lemma {:induction false} StuckRead(a: Point, f: Failure)
    requires Advances(ViewAt(a.views, f.generation), f.before) && Advances(f.before, f.after)
    requires Breaks(f.before, f.after, a.max)
    requires f.before == ViewAt(a.views, f.generation) || ReadSince(a, f.generation, f.before)
    ensures |f.after.fed| == |f.before.fed|
       <==> IsFinal(ParseFile(ViewAt(a.views, f.generation).fed, a.max).tail)
  {
    hide ParseFile, NothingBehind;
    var v := ViewAt(a.views, f.generation);
    if IsFinal(ParseFile(v.fed, a.max).tail) {
      FinalDecides(v.fed, f.before.fed, v, a.max);
    }
    if |f.after.fed| == |f.before.fed| {
      assert f.after.fed == f.before.fed;
    }
  }

  /**
   * When a report is to blame, counts of records are exact if and only if nothing was
   * left to deliver of it behind the watermark that the failed drain started with, and
   * counts of bytes if and only if the fault had been read before the call. If the
   * report was faulty before the call, its bytes and its watermark from before the call
   * decide.
   */
  lemma {:induction false} CountsAreExact(a: Point, b: Point, r: LiveResult, lost: Lost)
    requires Tally(a, b, r, lost) && lost.failure.Some? && lost.failure.value.broken
    ensures var f := lost.failure.value; var g := f.generation;
            && g in b.world.files
            && (r.records == |b.log| - |a.log| <==> NothingBehind(b.world.files[g], f.before, a.max))
            && (r.bytes == TotalRead(b.views) - TotalRead(a.views)
                <==> IsFinal(ParseFile(ViewAt(a.views, g).fed, a.max).tail))
            && (g in a.world.files && IsFinal(ParseFile(a.world.files[g], a.max).tail) ==>
                  (r.records == |b.log| - |a.log|
                   <==> NothingBehind(a.world.files[g], ViewAt(a.views, g), a.max)))
  {
    hide ParseFile, NothingBehind, TotalRead, AllAdvance, Extends, LostLast, Grew, Stuck, ReadSince;
    var f := lost.failure.value;
    StuckHandled(f.before, f.after, a.max);
    StuckIsFinal(f.after, a.max);
    FinalDecides(f.after.fed, b.world.files[f.generation], f.before, a.max);
    StuckRead(a, f);
    if f.generation in a.world.files && IsFinal(ParseFile(a.world.files[f.generation], a.max).tail) {
      GrewFile(a.world, b.world, f.generation);
      FinalDecides(a.world.files[f.generation], b.world.files[f.generation], f.before, a.max);
      FaultyFromTheStart(a, f);
    }
  }

  lemma StuckIsFinal(v: View, max: nat)
    requires Stuck(v, max)
    ensures IsFinal(ParseFile(v.fed, max).tail) && !v.closed
  {
    hide ParseFile;
  }

  lemma GrewFile(before: World, after: World, g: GenerationID)
    requires Grew(before, after) && g in before.files
    ensures g in after.files && before.files[g] <= after.files[g]
  {
  }

  /** No drain of a report that was faulty at the first point has succeeded since. */
  lemma {:induction false} FaultyFromTheStart(a: Point, f: Failure)
    requires f.generation in a.world.files && IsFinal(ParseFile(a.world.files[f.generation], a.max).tail)
    requires f.before == ViewAt(a.views, f.generation) || ReadSince(a, f.generation, f.before)
    requires Advances(f.before, f.after) && !f.after.closed
    ensures f.before == ViewAt(a.views, f.generation)
  {
    hide ParseFile, NothingBehind;
    if f.before != ViewAt(a.views, f.generation) {
      FinalDecides(a.world.files[f.generation], f.before.fed, f.before, a.max);
      assert false;
    }
  }
}
