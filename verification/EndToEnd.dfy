/**
 * From file bytes to metric totals: what a session has handled, and what it has
 * emitted, as functions of the bytes of a report and the cutover offset alone.
 */
module EndToEnd {
  import opened Wrappers
  import opened Bytes
  import opened Framing
  import opened Measurements
  import opened Counters
  import opened Ordering
  import opened Worlds
  import opened Processing
  import opened Snapshots
  import opened Progress
  import opened Readers
  import opened Registries
  import opened Sessions

  // ---- The log of a session ----

  /** The cutover offset of a generation; generations found later are live from the start. */
  function CutoverOffset(views: Views, g: GenerationID): nat {
    if g in views then views[g].committed else 0
  }

  /** The records of a file, those up to the cutover offset in baseline mode and the others live. */
  function FileCalls(g: GenerationID, records: seq<Record>, cutover: nat): (calls: seq<Call>)
    ensures |calls| == |records|
  {
    seq(|records|, i requires 0 <= i < |records| =>
      Call(if records[i].end <= cutover then Baseline else Live, g, records[i]))
  }

  /** The calls of one generation. */
  function CallsOf(log: seq<Call>, g: GenerationID): seq<Call> {
    if log == [] then []
    else
      var last := log[|log| - 1];
      CallsOf(log[..|log| - 1], g) + if last.generation == g then [last] else []
  }

  lemma {:induction false} CallsOfSplits(a: seq<Call>, b: seq<Call>, g: GenerationID)
    ensures CallsOf(a + b, g) == CallsOf(a, g) + CallsOf(b, g)
  {
    if b == [] {
      assert a + b == a;
    } else {
      assert (a + b)[..|a + b| - 1] == a + b[..|b| - 1];
      CallsOfSplits(a, b[..|b| - 1], g);
    }
  }

  lemma {:induction false} CallsOfMode(log: seq<Call>, mode: RecordMode, g: GenerationID)
    requires forall i :: 0 <= i < |log| ==> log[i].mode == mode
    ensures CallsOf(log, g) == Calls(mode, g, Accepted(log, g))
  {
    if log != [] {
      CallsOfMode(log[..|log| - 1], mode, g);
      CallsAppend(mode, g, Accepted(log[..|log| - 1], g), log[|log| - 1].record);
    }
  }

  lemma {:induction false} NoCallsOf(log: seq<Call>, g: GenerationID)
    requires forall i :: 0 <= i < |log| ==> log[i].generation != g
    ensures CallsOf(log, g) == []
  {
    if log != [] {
      NoCallsOf(log[..|log| - 1], g);
    }
  }

  // ---- Generations one after the other ----

  /** The log goes through these generations, one after the other. */
  ghost predicate OneByOne(log: seq<Call>, ids: seq<GenerationID>) {
    && (forall i :: 0 <= i < |log| ==> log[i].generation in ids)
    && (forall i, j, a, b :: 0 <= i <= j < |log| && 0 <= a < |ids| && 0 <= b < |ids| ==>
          ids[a] == log[i].generation && ids[b] == log[j].generation ==> a <= b)
  }

  /** The calls of each of these generations, one generation after the other. */
  function Gathered(log: seq<Call>, ids: seq<GenerationID>): seq<Call> {
    if ids == [] then []
    else Gathered(log, ids[..|ids| - 1]) + CallsOf(log, ids[|ids| - 1])
  }

  /** A call for none of the generations is not gathered. */
  lemma {:induction false} GatheredNot(log: seq<Call>, call: Call, ids: seq<GenerationID>)
    requires call.generation !in ids
    ensures Gathered(log + [call], ids) == Gathered(log, ids)
  {
    if ids != [] {
      GatheredNot(log, call, ids[..|ids| - 1]);
      CallsOfSplits(log, [call], ids[|ids| - 1]);
    }
  }

  /** A call for a generation behind which none has been called comes last. */
  lemma {:induction false} GatheredMore(log: seq<Call>, call: Call, ids: seq<GenerationID>, b: nat)
    requires b < |ids| && ids[b] == call.generation
    requires forall a :: 0 <= a < |ids| && a != b ==> ids[a] != call.generation
    requires forall a, i :: b < a < |ids| && 0 <= i < |log| ==> log[i].generation != ids[a]
    ensures Gathered(log + [call], ids) == Gathered(log, ids) + [call]
  {
    hide CallsOf;
    var n := |ids| - 1;
    CallsOfSplits(log, [call], ids[n]);
    if b == n {
      GatheredNot(log, call, ids[..n]);
      CallsOfOne(call, ids[n]);
    } else {
      GatheredMore(log, call, ids[..n], b);
      NoCallsOf(log, ids[n]);
      CallsOfOne(call, ids[n]);
    }
  }

  lemma CallsOfOne(call: Call, g: GenerationID)
    ensures CallsOf([call], g) == if call.generation == g then [call] else []
  {
    assert [call][..0] == [];
  }

  /** Gathering the calls of a log that goes through the generations one by one changes nothing. */
  lemma {:induction false} GatheredIsLog(log: seq<Call>, ids: seq<GenerationID>)
    requires OneByOne(log, ids)
    ensures log == Gathered(log, ids)
  {
    hide Gathered;
    if log == [] {
      NothingGathered(ids);
    } else {
      var front, last := log[..|log| - 1], log[|log| - 1];
      GatheredIsLog(front, ids);
      var b :| 0 <= b < |ids| && ids[b] == last.generation;
      forall a, i | b < a < |ids| && 0 <= i < |front|
        ensures front[i].generation != ids[a]
      {
        assert log[i] == front[i];
      }
      GatheredMore(front, last, ids, b);
      assert log == front + [last];
    }
  }

  lemma {:induction false} NothingGathered(ids: seq<GenerationID>)
    ensures Gathered([], ids) == []
  {
    if ids != [] {
      NothingGathered(ids[..|ids| - 1]);
    }
  }

  /** What lies behind a boundary is in order from there on. */
  lemma {:induction false} BehindTheBoundary(cut: View, now: View, max: nat)
    requires AtBoundary(cut, max) && Advances(cut, now)
    requires now.delivered <= ParseFile(now.fed, max).records
    ensures cut.delivered == ParseFile(cut.fed, max).records
    ensures forall i :: 0 <= i < |cut.delivered| ==> cut.delivered[i].end <= cut.committed
    ensures forall i :: |cut.delivered| <= i < |now.delivered| ==>
              cut.committed <= now.delivered[i].start < now.delivered[i].end
  {
    hide ParseFile;
    RecordsEndByBoundary(cut.fed, max);
    var more := now.fed[|cut.fed|..];
    assert now.fed == cut.fed + more;
    LaterRecordsLieBehind(cut.fed, more, max);
    var all := ParseFile(now.fed, max).records;
    InOrderBounds(all[|cut.delivered|..], now.fed, cut.committed);
    forall i | |cut.delivered| <= i < |now.delivered|
      ensures cut.committed <= now.delivered[i].start < now.delivered[i].end
    {
      assert now.delivered[i] == all[i] == all[|cut.delivered|..][i - |cut.delivered|];
    }
  }

  /**
   * The watermarks of readers at their boundary: each says where the last complete
   * record of what was read ends, what its text is, and whether the bracket closes it.
   */
  lemma {:induction false} MarksAreBoundaries(views: Views, marks: seq<Watermark>, max: nat, i: nat)
    requires MarksOf(views, marks) && i < |marks| && forall g :: g in views ==> AtBoundary(views[g], max)
    ensures marks[i].generation in views
    ensures var p := ParseFile(views[marks[i].generation].fed, max);
            && marks[i].committedOffset == p.boundary && (marks[i].closed <==> p.tail == Closed)
            && if p.records == [] then marks[i].lastFingerprint == None
               else marks[i].lastFingerprint == Some(Sha256(p.records[|p.records| - 1].raw))
  {
    hide ParseFile;
    var v := views[marks[i].generation];
    RecordsInOrder(v.fed, max);
    if v.delivered != [] {
      LastQuotes(v.delivered, v.fed, 0);
    }
  }

  lemma {:induction false} LastQuotes(records: seq<Record>, s: seq<Byte>, from: nat)
    requires InOrder(records, s, from) && records != []
    ensures Quotes(records[|records| - 1], s)
  {
    if |records| > 1 {
      LastQuotes(records[1..], s, records[0].end);
    }
  }

  /** Records that are the first ones of what was read are the first ones of the file. */
  lemma {:induction false} FirstOfFile(v: View, file: seq<Byte>, max: nat)
    requires v.fed <= file && v.delivered <= ParseFile(v.fed, max).records
    ensures v.delivered <= ParseFile(file, max).records
  {
    hide ParseFile;
    AppendNeverRevises(v.fed, file[|v.fed|..], max);
    assert v.fed + file[|v.fed|..] == file;
  }

  /**
   * In every reachable state a reader's committed records are the first ones of its
   * file as it is now, and of what was read of it.
   */
  lemma {:induction false} DeliveredFirst(session: SourceSession, g: GenerationID)
    requires session.Valid() && g in session.registry.readers
    ensures g in session.env.world.files
    ensures var v, max := session.registry.Views()[g], session.registry.maxRecordBytes;
            && v.delivered <= ParseFile(v.fed, max).records
            && v.delivered <= ParseFile(session.env.world.files[g], max).records
  {
    hide ParseFile;
    session.registry.readers[g].decoder.DeliveredIsPrefix();
    FollowsFile(session.registry.Views(), session.env.world, g);
    FirstOfFile(session.registry.Views()[g], session.env.world.files[g], session.registry.maxRecordBytes);
  }

  /** Splitting the records of one generation at the cutover. */
  lemma {:induction false} SplitRecords(cuts: Views, v: View, base: seq<Record>, live: seq<Record>,
                                        g: GenerationID, max: nat)
    requires base + live == v.delivered && v.delivered <= ParseFile(v.fed, max).records
    requires if g in cuts then AtBoundary(cuts[g], max) && Advances(cuts[g], v) && base == cuts[g].delivered
             else base == []
    ensures forall i :: 0 <= i < |base| ==> base[i].end <= CutoverOffset(cuts, g)
    ensures forall i :: 0 <= i < |live| ==> CutoverOffset(cuts, g) <= live[i].start < live[i].end
  {
    hide ParseFile, AtBoundary, Advances;
    if g in cuts {
      BehindTheBoundary(cuts[g], v, max);
    } else {
      DeliveredInOrder(v, max);
    }
    forall i | 0 <= i < |live|
      ensures CutoverOffset(cuts, g) <= live[i].start < live[i].end
    {
      assert live[i] == v.delivered[|base| + i];
    }
  }

  lemma {:induction false} DeliveredInOrder(v: View, max: nat)
    requires v.delivered <= ParseFile(v.fed, max).records
    ensures forall i :: 0 <= i < |v.delivered| ==> v.delivered[i].start < v.delivered[i].end
  {
    hide ParseFile;
    RecordsInOrder(v.fed, max);
    InOrderBounds(ParseFile(v.fed, max).records, v.fed, 0);
  }

  /** Splitting the log of one generation at the cutover. */
  lemma {:induction false} SplitAtCutover(cuts: Views, views: Views, base: seq<Call>, rest: seq<Call>,
                                          g: GenerationID, max: nat)
    requires g in views && CutoverAt(cuts, base, max) && AllAdvance(cuts, views) && Logged(views, base + rest)
    requires views[g].delivered <= ParseFile(views[g].fed, max).records
    ensures Accepted(base, g) + Accepted(rest, g) == views[g].delivered
    ensures forall i :: 0 <= i < |Accepted(base, g)| ==> Accepted(base, g)[i].end <= CutoverOffset(cuts, g)
    ensures var live := Accepted(rest, g);
            forall i :: 0 <= i < |live| ==> CutoverOffset(cuts, g) <= live[i].start < live[i].end
  {
    hide ParseFile, AtBoundary, Accepted, CutoverOffset, Advances;
    AcceptedSplits(base, rest, g);
    if g !in cuts {
      AcceptedNone(base, g);
    }
    SplitRecords(cuts, views[g], Accepted(base, g), Accepted(rest, g), g, max);
  }

  /**
   * Exactly once, in order, split by mode: for every generation the accepted
   * records are the first records of its file as it is now, each once; those accepted in
   * baseline mode end at or before its cutover offset, those accepted live start at
   * or after it.
   */
  lemma {:induction false} ExactlyOnceByMode(session: SourceSession, g: GenerationID)
    requires session.IsLive() && g in session.registry.readers
    ensures g in session.env.world.files
    ensures var v := session.registry.Views()[g];
            var base := Accepted(session.baselineLog, g);
            var live := Accepted(session.handler.log[|session.baselineLog|..], g);
            var cut := CutoverOffset(session.cutoverViews, g);
            && base + live == v.delivered
            && v.delivered <= ParseFile(session.env.world.files[g], session.registry.maxRecordBytes).records
            && (forall i :: 0 <= i < |base| ==> base[i].end <= cut)
            && (forall i :: 0 <= i < |live| ==> cut <= live[i].start < live[i].end)
  {
    hide ParseFile, Accepted, CutoverAt, CutoverOffset, AllAdvance, Logged, Follow, GenerationRegistry.Valid,
         RecordHandler.Valid, Environment.Valid;
    DeliveredFirst(session, g);
    var base, rest := session.baselineLog, session.handler.log[|session.baselineLog|..];
    assert session.handler.log == base + rest;
    SplitAtCutover(session.cutoverViews, session.registry.Views(), base, rest, g, session.registry.maxRecordBytes);
  }

  lemma JoinFileCalls(g: GenerationID, base: seq<Record>, live: seq<Record>, cut: nat)
    requires forall i :: 0 <= i < |base| ==> base[i].end <= cut
    requires forall i :: 0 <= i < |live| ==> cut < live[i].end
    ensures FileCalls(g, base + live, cut) == Calls(Baseline, g, base) + Calls(Live, g, live)
  {
  }

  /** The calls of one generation are determined by its committed records and its cutover offset. */
  lemma {:induction false} CallsOfFile(session: SourceSession, g: GenerationID)
    requires session.IsLive() && g in session.registry.readers
    ensures CallsOf(session.handler.log, g)
         == FileCalls(g, session.registry.Views()[g].delivered, CutoverOffset(session.cutoverViews, g))
  {
    hide ParseFile, FileCalls, Accepted, CallsOf, CutoverAt, CutoverOffset, AllAdvance, Logged, Follow,
         GenerationRegistry.Valid, RecordHandler.Valid, Environment.Valid;
    ExactlyOnceByMode(session, g);
    var base, rest := session.baselineLog, session.handler.log[|session.baselineLog|..];
    assert session.handler.log == base + rest;
    CallsOfSplits(base, rest, g);
    CallsOfMode(base, Baseline, g);
    CallsOfMode(rest, Live, g);
    JoinFileCalls(g, Accepted(base, g), Accepted(rest, g), CutoverOffset(session.cutoverViews, g));
  }

  // ---- Totals ----

  /** The records of some reports, report after report, split at the cutover offset of each. */
  function ReportCalls(records: map<GenerationID, seq<Record>>, cutover: Views, ids: seq<GenerationID>): seq<Call>
    requires forall g :: g in ids ==> g in records
  {
    if ids == [] then []
    else
      var g := ids[|ids| - 1];
      ReportCalls(records, cutover, ids[..|ids| - 1]) + FileCalls(g, records[g], CutoverOffset(cutover, g))
  }

  lemma {:induction false} SameCalls(a: map<GenerationID, seq<Record>>, b: map<GenerationID, seq<Record>>,
                                     cutover: Views, ids: seq<GenerationID>)
    requires forall g :: g in ids ==> g in a && g in b && a[g] == b[g]
    ensures ReportCalls(a, cutover, ids) == ReportCalls(b, cutover, ids)
  {
    if ids != [] {
      SameCalls(a, b, cutover, ids[..|ids| - 1]);
    }
  }

  /** What the readers have committed. */
  function Delivered(views: Views): map<GenerationID, seq<Record>> {
    map g | g in views :: views[g].delivered
  }

  /** The records of files. */
  function Parsed(files: map<GenerationID, seq<Byte>>, max: nat): map<GenerationID, seq<Record>> {
    map g | g in files :: ParseFile(files[g], max).records
  }

  /** The committed prefixes of files. */
  function Committed(views: Views, files: map<GenerationID, seq<Byte>>): map<GenerationID, seq<Byte>> {
    map g | g in views && g in files && views[g].committed <= |files[g]| :: files[g][..views[g].committed]
  }

  /** The log is determined by the committed records of each report and the cutover. */
  lemma {:induction false} LogOfReports(session: SourceSession, ids: seq<GenerationID>)
    requires session.IsLive() && OneByOne(session.handler.log, ids)
    requires forall g :: g in ids ==> g in session.registry.readers
    ensures session.handler.log == ReportCalls(Delivered(session.registry.Views()), session.cutoverViews, ids)
  {
    hide SourceSession.IsLive, OneByOne, Gathered;
    GatheredIsLog(session.handler.log, ids);
    GatheredAreReports(session, ids);
  }

  lemma {:induction false} GatheredAreReports(session: SourceSession, ids: seq<GenerationID>)
    requires session.IsLive() && forall g :: g in ids ==> g in session.registry.readers
    ensures Gathered(session.handler.log, ids)
         == ReportCalls(Delivered(session.registry.Views()), session.cutoverViews, ids)
  {
    hide SourceSession.IsLive, CallsOf, FileCalls;
    if ids != [] {
      GatheredAreReports(session, ids[..|ids| - 1]);
      CallsOfFile(session, ids[|ids| - 1]);
    }
  }

  /**
   * The sum of the positive differences of a series over the records of some reports,
   * report after report, counting only those that end after a report's cutover offset.
   */
  function ReportsTotal(codec: Codec, records: map<GenerationID, seq<Record>>, cutover: Views,
                        ids: seq<GenerationID>, s: Series): nat
    requires forall g :: g in ids ==> g in records
  {
    Growth(Select(LogObservations(codec, ReportCalls(records, cutover, ids)), s))
  }

  lemma {:induction false} EmittedTotalIsDeliveredTotal(session: SourceSession, ids: seq<GenerationID>, s: Series)
    requires session.IsLive() && OneByOne(session.handler.log, ids)
    requires forall g :: g in ids ==> g in session.registry.readers
    ensures Total(session.handler.processor.effect.increments, s)
         == ReportsTotal(session.handler.processor.codec, Delivered(session.registry.Views()),
                         session.cutoverViews, ids, s)
  {
    hide ParseFile, Total, Growth, Select, LogObservations, Run, ReportCalls, OneByOne, Delivered, AllAdvance,
         CutoverAt;
    LogOfReports(session, ids);
    TotalsArePositiveDifferences(LogObservations(session.handler.processor.codec, session.handler.log), s);
  }

  lemma {:induction false} CommittedFile(session: SourceSession, g: GenerationID)
    requires session.Valid() && g in session.registry.readers
    ensures g in session.env.world.files
    ensures var v, file := session.registry.Views()[g], session.env.world.files[g];
            && v.committed <= |file|
            && v.delivered == ParseFile(file[..v.committed], session.registry.maxRecordBytes).records
  {
    hide ParseFile, Reached, RecordHandler.Valid, Environment.Valid, SourceSession.Tidy, Logged;
    var decoder := session.registry.readers[g].decoder;
    decoder.CommittedIsParsed();
    FollowsFile(session.registry.Views(), session.env.world, g);
    assert session.env.world.files[g][..decoder.committed] == decoder.fed[..decoder.committed];
  }

  /**
   * End to end, at any time: what a session that handles reports one after the other
   * has emitted for a series is the sum of positive differences over the parses of
   * the committed prefixes of their files, counting only differences that end after
   * the cutover offset. No read, retry or interleaving leaves a trace in it.
   */
  lemma {:induction false} EmittedTotalIsCommittedTotal(session: SourceSession, ids: seq<GenerationID>, s: Series)
    requires session.IsLive() && OneByOne(session.handler.log, ids)
    requires forall g :: g in ids ==> g in session.registry.readers
    ensures var files := Committed(session.registry.Views(), session.env.world.files);
            && (forall g :: g in ids ==> g in files)
            && Total(session.handler.processor.effect.increments, s)
               == ReportsTotal(session.handler.processor.codec, Parsed(files, session.registry.maxRecordBytes),
                               session.cutoverViews, ids, s)
  {
    hide ParseFile, Total, Growth, Select, LogObservations, ReportCalls, OneByOne, SourceSession.Valid, CutoverAt,
         AllAdvance, Extends;
    EmittedTotalIsDeliveredTotal(session, ids, s);
    var views, files := session.registry.Views(), Committed(session.registry.Views(), session.env.world.files);
    var records := Parsed(files, session.registry.maxRecordBytes);
    forall g | g in ids
      ensures g in files && g in views && records[g] == Delivered(views)[g]
    {
      CommittedFile(session, g);
    }
    SameCalls(Delivered(views), records, session.cutoverViews, ids);
  }

  /**
   * End to end: once these reports have been handled completely, what the session has
   * emitted for a series is a function of the bytes of their files and the cutover
   * alone, whatever reads, retries and interleavings led there. When nothing is missed
   * this is so for every report that a name leads to.
   */
  lemma {:induction false} EmittedTotalIsFileTotal(session: SourceSession, ids: seq<GenerationID>, s: Series)
    requires session.IsLive() && OneByOne(session.handler.log, ids)
    requires forall g :: g in ids ==>
               (session.NothingMissed() && session.env.world.Reaches(g)) || session.HandledAll(g)
    ensures forall g :: g in ids ==> g in session.registry.readers && g in session.env.world.files
    ensures Total(session.handler.processor.effect.increments, s)
         == ReportsTotal(session.handler.processor.codec,
                         Parsed(session.env.world.files, session.registry.maxRecordBytes),
                         session.cutoverViews, ids, s)
  {
    hide ParseFile, Total, Growth, Select, LogObservations, ReportCalls, OneByOne, SourceSession.Valid, CutoverAt,
         AllAdvance, Extends;
    var views, records := session.registry.Views(), Parsed(session.env.world.files, session.registry.maxRecordBytes);
    forall g | g in ids
      ensures g in session.registry.readers && g in records && records[g] == Delivered(views)[g]
    {
      assert session.HandledAll(g);
    }
    EmittedTotalIsDeliveredTotal(session, ids, s);
    SameCalls(Delivered(views), records, session.cutoverViews, ids);
  }
}
