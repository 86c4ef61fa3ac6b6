/**
 * The exporter from its start to its end: the baseline, then the observer of the
 * metrics, then the live run. What the observer has been told in the end is
 * determined by the files of the reports and the cutover.
 */
module Exporter {
  import opened Wrappers
  import opened Measurements
  import opened Ordering
  import opened Worlds
  import opened Processing
  import opened Snapshots
  import opened Progress
  import opened Readers
  import opened Registries
  import opened Tallies
  import opened Sessions
  import opened EndToEnd

  /** An observer that was attached before anything was emitted has been told everything. */
  lemma TellsAll(session: SourceSession)
    requires session.IsLive() && session.handler.processor.observed && session.handler.processor.unseen == 0
    ensures session.handler.processor.recorded == session.handler.processor.effect.increments
  {
    hide GenerationRegistry.Valid, Environment.Valid, Logged, Follow, SourceSession.Tidy, CutoverAt, AllAdvance,
         Counters.Run, LogObservations, LogGauges;
  }

  /** Attaches the observer right after the cutover, before anything has been emitted. */
  method AttachObserver(session: SourceSession) returns (ok: bool)
    requires session.IsLive() && session.handler.log == session.baselineLog
    modifies session.handler.processor`observed, session.handler.processor`recorded, session.handler.processor`unseen
    ensures session.IsLive() && ok == !old(session.handler.processor.observed)
    ensures ok ==> session.handler.processor.observed && session.handler.processor.unseen == 0
  {
    hide GenerationRegistry.Valid, GenerationRegistry.Framed, GenerationRegistry.Views, Environment.Valid, Logged,
         Follow, SourceSession.Tidy, CutoverAt, AllAdvance, Processor.Valid, Extends;
    NothingEmitted(session);
    ok := session.handler.processor.AttachObserver();
  }

  lemma NothingEmitted(session: SourceSession)
    requires session.IsLive() && session.handler.log == session.baselineLog
    ensures session.handler.processor.effect.increments == []
  {
    hide GenerationRegistry.Valid, Environment.Valid, Logged, Follow, SourceSession.Tidy, CutoverAt, AllAdvance,
         Processor.Valid;
    NothingEmittedBeforeCutover(session.handler.processor);
  }

  lemma EstablishedMeans(session: SourceSession)
    requires session.IsEstablished()
    ensures session.IsLive() && session.NothingMissed() && session.baselineLog == session.handler.log
  {
    hide SourceSession.IsLive, SourceSession.NothingMissed, SourceSession.AllAtBoundary, MarksOf;
  }

  /**
   * Creates a session, and after its cutover the pipeline, which attaches the observer.
   * If either fails, nothing stays open.
   */
  method Start(ctx: Context, env: Environment, codec: Codec, maxRecordBytes: int, creationTime: int)
    returns (session: SourceSession?, error: Option<Error>)
    requires env.Valid() && forall f :: f in env.descriptors ==> !f.isOpen
    modifies env`world, env`schedule, env`descriptors, env.incidents, ctx
    ensures session != null <==> error == None
    ensures session == null ==> forall f :: f in env.descriptors ==> !f.isOpen
    ensures error == Some(ErrOptions) <==> maxRecordBytes <= 0
    ensures (StopsPass(error) || IsDone(error) || error in {Some(ErrOptions), Some(ErrPipeline)}) && ctx.Ends(error)
    ensures Reported(error, old(env.incidents.log), env.incidents.log)
    ensures old(env.schedule) == [] && old(ctx.checksLeft) >= 2 && IsDone(error) ==>
              forall g :: !env.world.Reaches(g)
    ensures session != null ==>
              && session.IsCreated(env, session.handler, maxRecordBytes, creationTime)
              && session.IsLive() && session.NothingMissed() && session.handler.processor.codec == codec
              && session.handler.processor.observed && session.handler.processor.unseen == 0
  {
    hide SourceSession.IsLive, SourceSession.NothingMissed, SourceSession.IsEstablished,
         GenerationRegistry.IsOldestFirst, GenerationRegistry.Valid, GenerationRegistry.Framed,
         GenerationRegistry.Views, SourceSession.Valid, Environment.Valid, Processor.Valid, World.Reaches, StopsPass;
    ghost var known := env.descriptors;
    var processor := new Processor(codec);
    var handler := new RecordHandler(processor);
    session, error := SourceSession.InitializeSource(ctx, env, handler, maxRecordBytes, creationTime);
    if error.Some? {
      return;
    }
    var ok := StartPipeline(session, known);
    if !ok {
      return null, Some(ErrPipeline);
    }
  }

  /** Sets up the pipeline, with its observer attached; if that fails, the session is closed. */
  method StartPipeline(session: SourceSession, ghost known: set<ReportFile>) returns (ok: bool)
    requires session.IsEstablished() && !session.handler.processor.observed
    requires forall f :: f in known ==> !f.isOpen
    modifies session.env.incidents
    modifies session.handler.processor`observed, session.handler.processor`recorded, session.handler.processor`unseen
    modifies session`isClosed, session.watcher, session.registry`readers, session.registry`isOpen
    modifies session.env.descriptors - known
    ensures Reported(if ok then None else Some(ErrPipeline), old(session.env.incidents.log), session.env.incidents.log)
    ensures ok ==>
              && session.IsLive() && session.NothingMissed()
              && session.handler.processor.observed && session.handler.processor.unseen == 0
    ensures !ok ==> forall f :: f in session.env.descriptors ==> !f.isOpen
  {
    hide SourceSession.IsLive, SourceSession.NothingMissed, SourceSession.IsEstablished, SourceSession.Valid,
         GenerationRegistry.Valid, GenerationRegistry.Framed, GenerationRegistry.Views, Processor.Valid;
    EstablishedMeans(session);
    var failed := session.env.incidents.Strike();
    ok := false;
    if !failed {
      ok := AttachObserver(session);
    }
    if !ok {
      session.LiveMeans();
      session.Abandon(known);
    }
  }

  /**
   * Runs a session to the end of its source. The observer is told of every increment,
   * and the gauges are forgotten when the source has ended. An error that only says
   * that the caller is done is not reported.
   */
  method Run(ctx: Context, session: SourceSession)
    returns (result: RunResult, error: Option<Error>, ghost failed: Option<Error>, ghost lost: Lost)
    requires session.IsLive() && session.handler.processor.observed && session.handler.processor.unseen == 0
    modifies session.env`world, session.env`schedule, session.env`descriptors, session.env.incidents
    modifies ctx, session`notificationOverflows
    modifies session.handler, session.handler.processor, session.handler.processor.state
    modifies session.registry`readers, session.registry`readerSet, session.registry`decoderSet
    modifies session.registry.readerSet, session.registry.decoderSet
    ensures session.IsLive() && session.handler.processor.observed && session.handler.processor.unseen == 0
    ensures Tally(old(session.Now()), session.Now(), result.live.Plus(result.drain.live), lost)
    ensures Blames(failed, lost)
    ensures result.sourceEnded ==> session.handler.processor.state.gauges == map[]
    ensures failed == None ==>
              && error == None && result.sourceEnded && lost == NO_LOSS
              && session.NothingMissed() && session.AllAtBoundary() && session.UncleanAre(result.drain.unclean)
    ensures error == if IsDone(failed) then None else failed
    ensures StopsPass(failed) || IsDone(failed) || failed == Some(ErrIdentity)
    ensures Reported(failed, old(session.env.incidents.log), session.env.incidents.log)
  {
    hide SourceSession.IsLive, SourceSession.NothingMissed, SourceSession.AllAtBoundary, SourceSession.UncleanAre,
         Tally, GenerationRegistry.Valid, GenerationRegistry.Framed, GenerationRegistry.Views, SourceSession.Valid,
         LiveResult.Plus, StopsPass, Reported;
    ghost var start := session.Now();
    result, error, lost := session.Run(ctx);
    failed := error;
    TalliedObserver(start, session.Now(), result.live.Plus(result.drain.live), lost);
    if result.sourceEnded {
      ForgetGauges(session);
    }
    var done := ctx.Err();
    if done.Some? && error == done {
      error := None;
    }
  }

  lemma TalliedObserver(a: Point, b: Point, r: LiveResult, lost: Lost)
    requires Tally(a, b, r, lost)
    ensures b.observed == a.observed && b.unseen == a.unseen
  {
  }

  /** The session of the source process is over: its gauges go, everything else stays. */
  method ForgetGauges(session: SourceSession)
    requires session.IsLive()
    modifies session.handler.processor`cleared, session.handler.processor.state`gauges
    ensures session.IsLive() && session.Now() == old(session.Now())
    ensures session.handler.processor.state.gauges == map[]
  {
    hide GenerationRegistry.Valid, GenerationRegistry.Framed, GenerationRegistry.Views, Environment.Valid, Logged,
         Follow, SourceSession.Tidy, CutoverAt, AllAdvance, Processor.Valid, Extends;
    var removed := session.handler.processor.EndSession();
  }

  /**
   * What the observer has been told of a series is the sum of its positive differences
   * over the committed parts of the reports, behind the cutover offset of each.
   */
  lemma {:induction false} ToldTotalIsCommittedTotal(session: SourceSession, ids: seq<GenerationID>, s: Series)
    requires session.IsLive() && session.handler.processor.observed && session.handler.processor.unseen == 0
    requires OneByOne(session.handler.log, ids) && forall g :: g in ids ==> g in session.registry.readers
    ensures var files := Committed(session.registry.Views(), session.env.world.files);
            && (forall g :: g in ids ==> g in files)
            && Counters.Total(session.handler.processor.recorded, s)
               == ReportsTotal(session.handler.processor.codec, Parsed(files, session.registry.maxRecordBytes),
                               session.cutoverViews, ids, s)
  {
    hide SourceSession.IsLive, Counters.Total, ReportsTotal, OneByOne, Committed, Parsed;
    TellsAll(session);
    EmittedTotalIsCommittedTotal(session, ids, s);
  }

  /** Once these reports have been handled completely, the same over their whole files. */
  lemma {:induction false} ToldTotalIsFileTotal(session: SourceSession, ids: seq<GenerationID>, s: Series)
    requires session.IsLive() && session.handler.processor.observed && session.handler.processor.unseen == 0
    requires OneByOne(session.handler.log, ids)
    requires forall g :: g in ids ==>
               (session.NothingMissed() && session.env.world.Reaches(g)) || session.HandledAll(g)
    ensures (forall g :: g in ids ==> g in session.env.world.files)
    ensures Counters.Total(session.handler.processor.recorded, s)
         == ReportsTotal(session.handler.processor.codec,
                         Parsed(session.env.world.files, session.registry.maxRecordBytes),
                         session.cutoverViews, ids, s)
  {
    hide SourceSession.IsLive, Counters.Total, ReportsTotal, OneByOne, Parsed, SourceSession.NothingMissed,
         SourceSession.HandledAll;
    TellsAll(session);
    EmittedTotalIsFileTotal(session, ids, s);
  }
}
