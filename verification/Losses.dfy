/**
 * What counts leave out: a report that is malformed behind its first record. Draining
 * it fails after that record has been handled, and the record is not counted.
 */
module Losses {
  import opened Wrappers
  import opened Bytes
  import opened JsonPrinter
  import opened Framing
  import opened Reports
  import opened Measurements
  import opened Ordering
  import opened Worlds
  import opened Processing
  import opened Progress
  import opened Readers
  import opened Registries
  import opened Tallies

  /** An empty object and two commas. */
  const MALFORMED: seq<Byte> := [OPEN_BRACKET, OPEN_BRACE, CLOSE_BRACE, COMMA, COMMA]

  const LIMIT: nat := 2

  lemma OneItem() returns (report: Report)
    ensures report.Valid(LIMIT) && !report.closed && report.Print() == MALFORMED[..4]
    ensures Body(report.items, false) + [COMMA] == MALFORMED[1..] && report.items[0].Size() == 3
    ensures |report.items| == 1
  {
    PrintedObjectIsObject([], []);
    var item := Item([], JsonPrinter.Print(JObject([], [])), []);
    report := Report([], [item], false, [], []);
    assert item.Bytes() == [OPEN_BRACE, CLOSE_BRACE];
    assert Body([item], false) == item.Bytes() + [COMMA] + Body([], false);
  }

  /** As long as the second comma has not arrived, the report may go on. */
  lemma {:induction false} PrefixWaits(n: nat)
    requires n <= 4
    ensures ParseFile(MALFORMED[..n], LIMIT).tail == NeedMore
  {
    hide ParseFile;
    var report := OneItem();
    CutReport(report, n, LIMIT);
    assert MALFORMED[..4][..n] == MALFORMED[..n];
  }

  /** With it, the report has one record and cannot go on. */
  lemma {:induction false} WholeIsInvalid()
    ensures var p := ParseFile(MALFORMED, LIMIT);
            p.tail == Invalid && |p.records| == 1 && !p.records[0].closes
  {
    hide FirstFrame;
    var report := OneItem();
    var item := report.items[0];
    assert MALFORMED[1..] == item.Bytes() + [COMMA] + [COMMA];
    assert MALFORMED == [] + ([OPEN_BRACKET] + MALFORMED[1..]);
    ParseOpened([], MALFORMED[1..], LIMIT);
    ItemThen(item, false, [COMMA], 1, false, LIMIT);
    NoObject();
  }

  lemma NoObject()
    ensures ParseItems([COMMA], 4, true, LIMIT) == Parse([], Invalid, 4)
  {
  }

  /** Whatever has been read of such a file, it never comes to a boundary behind the comma. */
  lemma {:induction false} ReadOfMalformed(file: seq<Byte>, fed: seq<Byte>)
    requires MALFORMED <= file && fed <= file
    ensures var p := ParseFile(fed, LIMIT);
            if |fed| < |MALFORMED| then p.tail == NeedMore
            else p.tail == Invalid && |p.records| == 1 && !p.records[0].closes
  {
    hide ParseFile;
    if |fed| < |MALFORMED| {
      PrefixWaits(|fed|);
      assert fed == MALFORMED[..|fed|];
    } else {
      WholeIsInvalid();
      assert fed == MALFORMED + fed[|MALFORMED|..];
      AppendNeverRevises(MALFORMED, fed[|MALFORMED|..], LIMIT);
    }
  }

  /** Who is stuck in such a report has handled exactly one record of it. */
  lemma {:induction false} StuckHasOne(file: seq<Byte>, v: View)
    requires MALFORMED <= file && v.fed <= file && Stuck(v, LIMIT)
    ensures |v.delivered| == 1
  {
    hide ParseFile;
    ReadOfMalformed(file, v.fed);
  }

  /** The condition for exact counts fails on such a file: it is faulty, and has a record for a new reader. */
  lemma {:induction false} SomethingBehind(file: seq<Byte>)
    requires MALFORMED <= file
    ensures IsFinal(ParseFile(file, LIMIT).tail) && !NothingBehind(file, BLANK, LIMIT)
  {
    hide ParseFile;
    ReadOfMalformed(file, file);
  }

  /** The state of a reader that has come to a stop in such a report. */
  ghost function StuckView(): View {
    View(MALFORMED, ParseFile(MALFORMED, LIMIT).records, 4, false, false)
  }

  lemma {:induction false} StuckViewBreaks()
    ensures Breaks(BLANK, StuckView(), LIMIT)
  {
    hide ParseFile;
    WholeIsInvalid();
    PrefixWaits(0);
    assert MALFORMED[..0] == [];
  }

  /**
   * A session with a new reader of such a report: what a call returns when the drain
   * comes to a stop in it is a tally, and its count falls short by the one record.
   */
  lemma {:induction false} CountFallsShort(g: GenerationID) returns (a: Point, b: Point, r: LiveResult, lost: Lost)
    ensures Tally(a, b, r, lost) && lost.failure.Some? && lost.failure.value.broken
    ensures a.views == map[g := BLANK] && g in a.world.files && a.world.files[g] == MALFORMED
    ensures r.records + 1 == |b.log| - |a.log|
  {
    hide ParseFile, Breaks;
    WholeIsInvalid();
    StuckViewBreaks();
    var v := StuckView();
    a := Point(map[g := BLANK], [], 0, true, 0, World(map[0 := g], map[g := MALFORMED], map[g := 0], []), LIMIT);
    b := a.(views := a.views[g := v], log := [Call(Live, g, v.delivered[0])]);
    TotalReadMore(a.views, g, v);
    r, lost := LiveResult(0, 0, 0, 0), Lost(1, |MALFORMED|, Some(Failure(g, BLANK, v, true)));
  }

  lemma {:induction false} NeverSettled(file: seq<Byte>, v: View)
    requires MALFORMED <= file && v.fed <= file && (v.closed || MALFORMED <= v.fed)
    ensures !AtBoundary(v, LIMIT)
  {
    hide ParseFile;
    ReadOfMalformed(file, v.fed);
  }

  lemma {:induction false} AllAccepted(log: seq<Call>, g: GenerationID)
    requires forall i :: 0 <= i < |log| ==> log[i].generation == g
    ensures |Accepted(log, g)| == |log|
  {
    if log != [] {
      AllAccepted(log[..|log| - 1], g);
    }
  }

  /** With a single reader, all calls are for its generation. */
  lemma {:induction false} SingleLog(views: Views, log: seq<Call>, g: GenerationID)
    requires Logged(views, log) && views.Keys == {g}
    ensures |log| == |views[g].delivered|
  {
    AllAccepted(log, g);
  }

  /** A pass over a single reader that fails has taken no turn before. */
  lemma SingleTurn(registry: GenerationRegistry, g: GenerationID, log: seq<Call>, turns: Turns)
    requires registry.Framed() && registry.readers.Keys == {g} && registry.IsOldestFirst(turns.order)
    requires TurnsOf(log, turns, true)
    ensures turns.order[turns.taken] == g && turns.lost.records == |log|
  {
    assert turns.order[turns.taken] in turns.order;
    if turns.taken > 0 {
      assert turns.order[0] in turns.order && turns.order[0] == g;
      BeforeIsTotal(registry.EntryOf(g), registry.EntryOf(g));
    }
  }

  lemma SingleView(registry: GenerationRegistry, g: GenerationID)
    requires registry.Framed() && registry.readers.Keys == {g}
    ensures registry.Views().Keys == {g}
  {
  }

  /** A registry with a single blank reader. */
  method OpenOne(g: GenerationID) returns (registry: GenerationRegistry)
    ensures fresh(registry) && fresh(registry.readerSet) && fresh(registry.decoderSet)
    ensures registry.Valid() && registry.maxRecordBytes == LIMIT
    ensures registry.readers.Keys == {g} && registry.Views() == map[g := BLANK]
  {
    hide GenerationReader.Valid, GenerationRegistry.Rotations;
    registry := new GenerationRegistry(LIMIT);
    var report := new ReportFile(g, 0);
    var isNew := registry.RegisterOne(Discovered(0, report));
  }

  /**
   * A pass over one such report never succeeds, whatever the writer appends. If it
   * fails because of the report, one record has been handled and none is counted.
   */
  method LoseOne(env: Environment, handler: RecordHandler, g: GenerationID, mode: RecordMode)
    returns (records: nat, error: Option<Error>, ghost lost: Lost)
    requires env.Valid() && handler.Valid() && handler.log == []
    requires g in env.world.files && MALFORMED <= env.world.files[g]
    modifies env`world, env`schedule, env.incidents, handler, handler.processor, handler.processor.state
    ensures env.Valid() && handler.Valid() && error.Some?
    ensures records + lost.records == |handler.log|
    ensures IsBroken(error) ==> |handler.log| == 1 && records == 0 && lost.records == 1
  {
    hide ParseFile, RecordHandler.Valid, Environment.Valid, Stuck, AtBoundary, CaughtUp, TotalRead, InTurn, TurnsOf,
         GenerationRegistry.Valid, GenerationRegistry.Framed, GenerationRegistry.Views, Logged,
         GenerationRegistry.IsOldestFirst, Extends, AllAdvance;
    ghost var before := env.world;
    var registry := OpenOne(g);
    BlankIsLogged(g);
    var bytes;
    ghost var turns;
    records, bytes, error, turns := registry.DrainAll(env, handler, mode);
    lost := turns.lost;
    SingleView(registry, g);
    ghost var v := registry.Views()[g];
    if error == None {
      NeverSettled(env.world.files[g], v);
      assert false;
    }
    if IsBroken(error) {
      assert handler.log[0..] == handler.log;
      SingleTurn(registry, g, handler.log, turns);
      SingleLog(registry.Views(), handler.log, g);
      StuckHasOne(env.world.files[g], v);
    }
  }

  lemma BlankIsLogged(g: GenerationID)
    ensures Logged(map[g := BLANK], [])
  {
  }
}
