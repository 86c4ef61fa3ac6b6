/**
 * A source session: baseline initialization up to the cutover, live reconciliation,
 * the final drain and the outer loop. Every pass scans, registers, drains all
 * readers and then takes the notifications; it is repeated until a pass finds
 * nothing new and no notification, and that is proved to be enough.
 */
module Sessions {
  import opened Wrappers
  import opened Measurements
  import opened Events
  import opened Ordering
  import opened Worlds
  import opened Processing
  import opened Progress
  import opened Readers
  import opened Registries
  import opened Tallies

  /** Cancellation and deadlines: a context is done after any finite number of checks. */
  class Context {
    const canceled: bool
    var checksLeft: nat
    /** How often a wait has come to its end. */
    ghost var waits: nat

    function Reason(): Error {
      if canceled then ErrCanceled else ErrDeadlineExceeded
    }

    /** An error that says that the caller is done is this context's own, and the context is done. */
    ghost predicate Ends(error: Option<Error>)
      reads this
    {
      IsDone(error) ==> checksLeft == 0 && error == Some(Reason())
    }

    method Err() returns (e: Option<Error>)
      modifies this
      ensures e.Some? <==> old(checksLeft) == 0
      ensures checksLeft == (if old(checksLeft) == 0 then 0 else old(checksLeft) - 1) && waits == old(waits)
      ensures e.Some? ==> e == Some(Reason())
    {
      if checksLeft == 0 {
        return Some(Reason());
      }
      checksLeft := checksLeft - 1;
      return None;
    }
  }

  /** The caller has stopped waiting. */
  predicate IsDone(error: Option<Error>) {
    error == Some(ErrCanceled) || error == Some(ErrDeadlineExceeded)
  }

  lemma ScanStops(error: Option<Error>)
    requires error in {None, Some(ErrScan)}
    ensures StopsPass(error) && Blames(error, NO_LOSS)
  {
  }

  /** What a pass may end with. */
  predicate StopsPass(error: Option<Error>) {
    error.Some? ==> error.value.ErrScan? || error.value.ErrApply? || error.value.ErrInspect? || error.value.ErrRead?
                    || error.value.ErrWatcher? || error.value.ErrWatcherInvalidated? || IsBroken(error)
  }

  class SourceSession {
    const env: Environment
    const handler: RecordHandler
    const watcher: DirectoryWatcher
    const registry: GenerationRegistry
    const creationTime: int
    var cutover: seq<Watermark>
    var notificationOverflows: nat
    var isClosed: bool

    /** The log and the readers as they were at the cutover. */
    ghost var baselineLog: seq<Call>
    ghost var cutoverViews: Views

    /**
     * A descriptor is open exactly if the reader of its generation owns it, and
     * every reader's descriptor is one that the session has opened, of a file that is
     * newer than the source process.
     */
    ghost predicate Tidy()
      reads registry, env, env.descriptors
    {
      && (forall f :: f in env.descriptors ==> (f.isOpen <==> registry.Owns(f)))
      && (forall g :: g in registry.readers ==>
            registry.readers[g].report in env.descriptors && registry.readers[g].report.modified > creationTime)
    }

    ghost predicate Valid()
      reads this`isClosed, env, env.descriptors, handler, handler.processor, handler.processor.state, watcher
      reads registry, registry.readerSet`lastFingerprint, registry.decoderSet
      ensures Valid() ==> registry.Framed()
    {
      && env.Valid() && handler.Valid() && registry.Valid()
      && registry.isOpen && watcher.isOpen && !isClosed
      && Follow(registry.Views(), env.world)
      && Logged(registry.Views(), handler.log)
      && Tidy()
    }

    /**
     * Nothing is missed: every generation that a report name leads to has a reader,
     * and that reader has handled every complete record of the file and stands at
     * its last complete-record boundary.
     */
    ghost predicate NothingMissed()
      requires registry.Framed()
      reads env, registry, registry.decoderSet
    {
      forall g :: env.world.Reaches(g) ==> HandledAll(g)
    }

    /** The generation has a reader, and that reader has handled its whole file. */
    ghost predicate HandledAll(g: GenerationID)
      requires registry.Framed()
      reads env, registry, registry.decoderSet
    {
      && g in registry.readers && g in env.world.files
      && CaughtUp(registry.Views()[g], env.world.files[g], registry.maxRecordBytes)
    }

    /** All readers stand at the boundary of what they have read. */
    ghost predicate AllAtBoundary()
      requires registry.Framed()
      reads registry, registry.decoderSet
    {
      forall g :: g in registry.readers ==> AtBoundary(registry.Views()[g], registry.maxRecordBytes)
    }

    /** The cutover has just been published: nothing is missed, and a report exists. */
    ghost predicate IsEstablished()
      reads this, handler, handler.processor, handler.processor.state, env, env.descriptors
      reads watcher, registry, registry.readerSet, registry.decoderSet
    {
      && IsLive() && NothingMissed() && AllAtBoundary() && registry.readers != map[]
      && baselineLog == handler.log && cutoverViews == registry.Views() && MarksOf(cutoverViews, cutover)
      && registry.IsOldestFirst(GenerationRegistry.Marked(cutover))
    }

    constructor Start(env: Environment, handler: RecordHandler, maxRecordBytes: nat, creationTime: int)
      requires 0 < maxRecordBytes && env.Valid() && handler.Valid() && handler.log == []
      requires forall f :: f in env.descriptors ==> !f.isOpen
      modifies env`world
      ensures Valid() && fresh(registry) && fresh(watcher) && registry.readers == map[]
      ensures fresh(registry.readerSet) && fresh(registry.decoderSet)
      ensures this.env == env && this.handler == handler && env.descriptors == old(env.descriptors)
      ensures env.world == old(env.world).(queue := [])
      ensures this.creationTime == creationTime && registry.maxRecordBytes == maxRecordBytes
    {
      this.env, this.handler, this.creationTime := env, handler, creationTime;
      registry := new GenerationRegistry(maxRecordBytes);
      watcher := new DirectoryWatcher(env);
      cutover, notificationOverflows, isClosed := [], 0, false;
      baselineLog, cutoverViews := [], map[];
    }

    /** What registering a scan adds: rotations rise, readers stay, new ones own what was found. */
    ghost predicate Added(rotations: map<GenerationID, nat>, before: map<GenerationID, GenerationReader>,
                          found: seq<Discovered>)
      requires registry.Framed()
      reads registry, registry.readerSet`rotation
    {
      && registry.Rotations() == Merge(rotations, found)
      && (forall g :: g in before ==> g in registry.readers && registry.readers[g] == before[g])
      && (forall g :: g in registry.readers && g !in before ==> registry.readers[g].report in Reports(found))
    }

    lemma AddedBy(rotations: map<GenerationID, nat>, before: map<GenerationID, GenerationReader>,
                  found: seq<Discovered>)
      requires registry.Framed() && registry.Rotations() == Merge(rotations, found)
      requires forall g :: g in before ==> g in registry.readers && registry.readers[g] == before[g]
      requires forall g :: g in registry.readers && g !in before ==> registry.readers[g].report in Reports(found)
      ensures Added(rotations, before, found)
    {
      hide GenerationRegistry.Rotations, Merge, Reports;
    }

    /** After a scan: what it handed out is open, what it opened besides is closed. */
    ghost predicate Scanned(discovered: seq<Discovered>, known: set<ReportFile>)
      reads registry, env, env.descriptors
    {
      && known <= env.descriptors
      && (forall f :: f in known ==> (f.isOpen <==> registry.Owns(f)))
      && (forall g :: g in registry.readers ==>
            registry.readers[g].report in known && registry.readers[g].report.modified > creationTime)
      && (forall f :: f in Reports(discovered) ==> f.modified > creationTime)
      && Reports(discovered) <= env.descriptors - known
      && (forall f :: f in env.descriptors - known ==> (f.isOpen <==> f in Reports(discovered)))
    }

    /** Hands the descriptors of a scan to the registry: none leaks. */
    method Register(discovered: seq<Discovered>, ghost known: set<ReportFile>)
      returns (registered: nat, ok: bool)
      requires registry.Valid() && Distinct(discovered) && Scanned(discovered, known)
      modifies registry`readers, registry`readerSet, registry`decoderSet, registry.readerSet`rotation
      modifies Reports(discovered)
      ensures registry.Valid() && ok == registry.isOpen && Tidy()
      ensures fresh(registry.readerSet - old(registry.readerSet))
      ensures fresh(registry.decoderSet - old(registry.decoderSet))
      ensures registered == |registry.readers| - |old(registry.readers)|
      ensures ok ==> Added(old(registry.Rotations()), old(registry.readers), discovered)
      ensures BlanksOnly(old(registry.Views()), registry.Views())
      ensures forall g :: g in registry.readers && g !in old(registry.readers) ==>
                exists f :: f in Reports(discovered) && f.generation == g
    {
      hide GenerationRegistry.Views, GenerationRegistry.Rotations, GenerationRegistry.Framed, GenerationRegistry.Valid,
           BlanksOnly, GenerationReader.Valid, Merge, Distinct, Reports, Added;
      InReports(discovered);
      ghost var rotations, before := registry.Rotations(), registry.readers;
      registered, ok := registry.Register(discovered);
      if ok {
        AddedBy(rotations, before, discovered);
      }
      forall f | f in env.descriptors
        ensures f.isOpen <==> registry.Owns(f)
      {
        if f in Reports(discovered) {
          var i :| 0 <= i < |discovered| && discovered[i].report == f;
        } else if f.generation in before {
          assert registry.readers[f.generation] == before[f.generation];
        } else if f.generation in registry.readers {
          assert registry.readers[f.generation].report in Reports(discovered);
        }
      }
      forall g | g in registry.readers
        ensures registry.readers[g].report in env.descriptors && registry.readers[g].report.modified > creationTime
      {
        if g in before {
          assert registry.readers[g] == before[g];
        } else {
          assert registry.readers[g].report in Reports(discovered);
        }
      }
    }

    /** Registering adds blank readers only: what was read and logged stays as it was. */
    method TakeOver(discovered: seq<Discovered>, ghost known: set<ReportFile>)
      returns (registered: nat, ok: bool)
      requires registry.Valid() && env.Valid() && handler.Valid() && Distinct(discovered) && Scanned(discovered, known)
      requires forall f :: f in Reports(discovered) ==> f.generation in env.world.files
      requires Follow(registry.Views(), env.world) && Logged(registry.Views(), handler.log)
      modifies registry`readers, registry`readerSet, registry`decoderSet, registry.readerSet`rotation
      modifies Reports(discovered)
      ensures registry.Valid() && env.Valid() && handler.Valid() && ok == registry.isOpen && Tidy()
      ensures fresh(registry.readerSet - old(registry.readerSet))
      ensures fresh(registry.decoderSet - old(registry.decoderSet))
      ensures registered == |registry.readers| - |old(registry.readers)|
      ensures ok ==> Added(old(registry.Rotations()), old(registry.readers), discovered)
      ensures BlanksOnly(old(registry.Views()), registry.Views())
      ensures old(registry.readers.Keys) <= registry.readers.Keys
      ensures AllAdvance(old(registry.Views()), registry.Views())
      ensures TotalRead(registry.Views()) == TotalRead(old(registry.Views()))
      ensures Follow(registry.Views(), env.world) && Logged(registry.Views(), handler.log)
    {
      hide GenerationRegistry.Valid, Environment.Valid, RecordHandler.Valid, Logged, Follow, AllAdvance, TotalRead,
           BlanksOnly, Reports, Distinct, Scanned, Tidy, Added, GenerationRegistry.Views;
      ghost var views := registry.Views();
      ReadersOfViews();
      registered, ok := Register(discovered, known);
      ReadersOfViews();
      BlanksStay(views, registry.Views());
      BlanksAdded(views, registry.Views(), handler.log);
      FollowBlanks(views, registry.Views(), env.world);
    }

    /** Opens what the directory lists: of the new descriptors, those handed out are open. */
    method OpenListed() returns (discovered: seq<Discovered>, ok: bool)
      requires env.Valid() && Tidy()
      modifies env`world, env`schedule, env`descriptors, env.incidents
      ensures env.Valid() && Evolved(old(env.world), env.world)
      ensures Distinct(discovered) && Scanned(discovered, old(env.descriptors))
      ensures old(env.descriptors) <= env.descriptors && fresh(env.descriptors - old(env.descriptors))
      ensures fresh(Reports(discovered))
      ensures forall f :: f in Reports(discovered) ==> f.generation in env.world.files
      ensures ok && env.world.queue == [] ==> Covers(discovered, env.world.names, env.world.names.Keys)
      ensures Sees(old(env.world), old(env.schedule), env.queueLimit, discovered, ok)
      ensures Rests(old(env.world), old(env.schedule), env.world, env.schedule)
      ensures ok && |env.schedule| == |old(env.schedule)| ==> SeesAsNamed(env.world, discovered)
      ensures Reported(if ok then None else Some(ErrScan), old(env.incidents.log), env.incidents.log)
      ensures StaleIsOld(old(env.incidents.log), env.incidents.log, creationTime)
      ensures !ok ==> Tidy()
    {
      hide Environment.Valid, Evolved, Covers, Unique, Distinct, Reports, Stepped, Sights, Sees, Still, Rests, Reported,
           SeesAsNamed;
      ghost var world, steps := env.world, env.schedule;
      discovered, ok := ScanReports(env, creationTime);
      SeesAll(world, steps, env.world, env.schedule, env.queueLimit, discovered, ok);
      if !ok {
        NothingScanned();
      }
    }

    /** Scans the directory; what was opened is not registered yet. */
    method Scan() returns (discovered: seq<Discovered>, ok: bool)
      requires Valid()
      modifies env`world, env`schedule, env`descriptors, env.incidents
      ensures env.Valid() && handler.Valid() && registry.Valid() && Evolved(old(env.world), env.world)
      ensures registry.Views() == old(registry.Views()) && registry.Rotations() == old(registry.Rotations())
      ensures Follow(registry.Views(), env.world) && Logged(registry.Views(), handler.log)
      ensures Distinct(discovered) && Scanned(discovered, old(env.descriptors))
      ensures old(env.descriptors) <= env.descriptors && fresh(env.descriptors - old(env.descriptors))
      ensures fresh(Reports(discovered))
      ensures forall f :: f in Reports(discovered) ==> f.generation in env.world.files
      ensures ok && env.world.queue == [] ==> Covers(discovered, env.world.names, env.world.names.Keys)
      ensures Sees(old(env.world), old(env.schedule), env.queueLimit, discovered, ok)
      ensures Rests(old(env.world), old(env.schedule), env.world, env.schedule)
      ensures ok && |env.schedule| == |old(env.schedule)| ==> SeesAsNamed(env.world, discovered)
      ensures Reported(if ok then None else Some(ErrScan), old(env.incidents.log), env.incidents.log)
      ensures StaleIsOld(old(env.incidents.log), env.incidents.log, creationTime)
      ensures !ok ==> Tidy()
    {
      hide GenerationRegistry.Valid, RecordHandler.Valid, Environment.Valid, Logged, Follow, Evolved, Covers,
           Distinct, Reports, Scanned, Tidy, Sees, Rests, Reported, SeesAsNamed, GenerationRegistry.Views,
           GenerationRegistry.Rotations, GenerationRegistry.Framed;
      ghost var views := registry.Views();
      discovered, ok := OpenListed();
      FollowOnwards(views, old(env.world), env.world);
    }

    /**
     * Scans and registers. If the queue is still empty afterwards, every generation
     * that a name leads to has a reader.
     */
    method Discover() returns (registered: nat, error: Option<Error>, ghost found: seq<Discovered>)
      requires Valid()
      modifies env`world, env`schedule, env`descriptors, env.incidents
      modifies registry`readers, registry`readerSet, registry`decoderSet, registry.readerSet`rotation
      ensures Valid()
      ensures Evolved(old(env.world), env.world)
      ensures fresh(registry.readerSet - old(registry.readerSet))
      ensures fresh(registry.decoderSet - old(registry.decoderSet))
      ensures old(env.descriptors) <= env.descriptors && fresh(env.descriptors - old(env.descriptors))
      ensures BlanksOnly(old(registry.Views()), registry.Views())
      ensures AllAdvance(old(registry.Views()), registry.Views())
      ensures TotalRead(registry.Views()) == TotalRead(old(registry.Views()))
      ensures registered == |registry.readers| - |old(registry.readers)|
      ensures error in {None, Some(ErrScan)} && Reported(error, old(env.incidents.log), env.incidents.log)
      ensures StaleIsOld(old(env.incidents.log), env.incidents.log, creationTime)
      ensures Finds(old(registry.readers.Keys), old(env.world), old(env.schedule), registry.readers.Keys, env.world,
                    env.schedule, registered, error)
      ensures error == None ==>
                && AllKnown(registry.readers.Keys, env.world)
                && Sees(old(env.world), old(env.schedule), env.queueLimit, found, true)
                && Added(old(registry.Rotations()), old(registry.readers), found)
    {
      hide GenerationRegistry.Valid, RecordHandler.Valid, Logged, Follow, Evolved, AllAdvance, TotalRead, Merge, Covers,
           Reports, AllKnown, Environment.Valid, Distinct, Scanned, Tidy, Sees, Added, BlanksOnly, Rests, Reported,
           SeesAsNamed, AddsNamed;
      registered, error, found := 0, None, [];
      ghost var views, rotations, readers := registry.Views(), registry.Rotations(), registry.readers;
      var discovered, ok := Scan();
      if !ok {
        BlanksNone(views);
        BlanksAdded(views, views, handler.log);
        return registered, Some(ErrScan), found;
      }
      registered, ok := TakeOver(discovered, old(env.descriptors));
      if !ok {
        return registered, Some(ErrOsClosed), found;
      }
      found := discovered;
      AddedMeansKnown(rotations, readers, discovered);
      if SeesAsNamed(env.world, found) {
        AddedAsNamed(rotations, readers, found);
      }
    }

    lemma AddedMeansKnown(rotations: map<GenerationID, nat>, before: map<GenerationID, GenerationReader>,
                          found: seq<Discovered>)
      requires registry.Framed() && Added(rotations, before, found)
      requires env.world.queue == [] ==> Covers(found, env.world.names, env.world.names.Keys)
      ensures AllKnown(registry.readers.Keys, env.world)
    {
      hide AllKnown, Covers, Merge;
      assert registry.Rotations().Keys == registry.readers.Keys;
      CoversMeansKnown(found, rotations, env.world);
    }

    /** Registering what names lead to adds exactly that. */
    lemma AddedAsNamed(rotations: map<GenerationID, nat>, before: map<GenerationID, GenerationReader>,
                       found: seq<Discovered>)
      requires registry.Valid() && Added(rotations, before, found) && SeesAsNamed(env.world, found)
      ensures AddsNamed(before.Keys, env.world, registry.readers.Keys)
    {
      hide Merge, Reports, Covers, GenerationReader.Valid, World.Reaches;
      assert registry.Rotations().Keys == registry.readers.Keys;
      NamedAreMerged(found, rotations, env.world);
      assert forall g :: g in registry.readers ==> registry.readers[g].report.generation == g;
    }

    lemma ReadersAreOpen()
      requires Valid()
      ensures forall g :: g in registry.readers ==> registry.readers[g].report.isOpen
    {
      hide GenerationReader.Valid, RecordHandler.Valid, Environment.Valid, Logged, Follow;
    }

    /** Drains all readers, oldest first; what is known of the directory stays known. */
    method DrainReaders(mode: RecordMode)
      returns (records: nat, bytes: nat, error: Option<Error>, ghost turns: Turns)
      requires Valid() && AllKnown(registry.readers.Keys, env.world)
      modifies registry.readerSet`lastFingerprint, registry.decoderSet, env`world, env`schedule, env.incidents
      modifies handler, handler.processor, handler.processor.state
      ensures Valid() && AllKnown(registry.readers.Keys, env.world) && Evolved(old(env.world), env.world)
      ensures AllAdvance(old(registry.Views()), registry.Views())
      ensures Extends(old(handler.log), handler.log, mode)
      ensures records + turns.lost.records == |handler.log| - |old(handler.log)|
      ensures bytes + turns.lost.bytes == TotalRead(registry.Views()) - TotalRead(old(registry.Views()))
      ensures registry.IsOldestFirst(turns.order)
      ensures TurnsOf(handler.log[|old(handler.log)|..], turns, error.Some?)
      ensures Explains(turns.lost, old(registry.Views()), registry.Views(), registry.maxRecordBytes)
      ensures Blames(error, turns.lost)
      ensures error == None ==>
                && Settled(registry.Views(), env.world, registry.readers.Keys, registry.maxRecordBytes)
                && ReadAll(registry.Views(), old(env.world), registry.readers.Keys)
      ensures Rests(old(env.world), old(env.schedule), env.world, env.schedule)
      ensures StopsPass(error) && Reported(error, old(env.incidents.log), env.incidents.log)
      ensures handler.processor.unseen == old(handler.processor.unseen)
      ensures handler.processor.observed == old(handler.processor.observed)
    {
      hide GenerationRegistry.Valid, RecordHandler.Valid, Environment.Valid, Logged, Follow, Evolved, AllAdvance,
           TotalRead, AllKnown, Settled, ReadAll, Extends, TurnsOf, GenerationRegistry.IsOldestFirst, Explains, Rests,
           Reported;
      ghost var before := env.world;
      ReadersAreOpen();
      records, bytes, error, turns := registry.DrainAll(env, handler, mode);
      AllKnownOn(registry.readers.Keys, before, env.world);
    }

    /**
     * Takes the notifications: those that were queued and those that arrive meanwhile.
     * Without any, what was settled and known is all there is.
     */
    method TakeEvents() returns (events: DirectoryEvents, error: Option<Error>, ghost taken: seq<Event>)
      requires Valid() && AllKnown(registry.readers.Keys, env.world)
      requires Settled(registry.Views(), env.world, registry.readers.Keys, registry.maxRecordBytes)
      modifies env`world, env`schedule, env.incidents
      ensures Valid() && AllAtBoundary() && registry.Views() == old(registry.Views())
      ensures Grew(old(env.world), env.world)
      ensures error in {None, Some(ErrWatcher), Some(ErrWatcherInvalidated)}
      ensures Reported(error, old(env.incidents.log), env.incidents.log)
      ensures TakenFrom(old(env.world), old(env.schedule), env.world, env.schedule, taken)
      ensures error != Some(ErrWatcher) ==> events == Join(NO_EVENTS, taken) && env.world.queue == []
      ensures error == Some(ErrWatcherInvalidated) <==> error != Some(ErrWatcher) && events.invalidated
      ensures error == None && !events.changed ==> NothingMissed() && Evolved(old(env.world), env.world)
    {
      hide GenerationRegistry.Valid, RecordHandler.Valid, Lasting, World.Valid, Logged, Follow, Evolved, AllKnown,
           Settled, CaughtUp, AtBoundary, TakenFrom, Reported, Grew;
      ghost var before, views := env.world, registry.Views();
      assert views.Keys == registry.readers.Keys;
      SettledMeans(views, before, registry.maxRecordBytes);
      events, error, taken := DrainWatch();
      FollowOn(views, before, env.world);
      if error == None && taken == [] {
        AllKnownOn(views.Keys, before, env.world);
        SettledOn(views, before, env.world, views.Keys, registry.maxRecordBytes);
        SettledMeans(views, env.world, registry.maxRecordBytes);
        KnownMeans(views.Keys, env.world);
      }
    }

    /** Takes the events; fails if reading them fails, or if one of them says that the watch is lost. */
    method DrainWatch() returns (events: DirectoryEvents, error: Option<Error>, ghost taken: seq<Event>)
      requires env.Valid() && watcher.isOpen
      modifies env`world, env`schedule, env.incidents
      ensures env.Valid() && Grew(old(env.world), env.world)
      ensures error in {None, Some(ErrWatcher), Some(ErrWatcherInvalidated)}
      ensures Reported(error, old(env.incidents.log), env.incidents.log)
      ensures TakenFrom(old(env.world), old(env.schedule), env.world, env.schedule, taken)
      ensures error != Some(ErrWatcher) ==> events == Join(NO_EVENTS, taken) && env.world.queue == []
      ensures error == Some(ErrWatcherInvalidated) <==> error != Some(ErrWatcher) && events.invalidated
      ensures taken == [] ==> Evolved(old(env.world), env.world)
    {
      hide Environment.Valid, Evolved, TakenFrom, Grew;
      var ok;
      events, ok, taken := watcher.Drain(env);
      if !ok {
        return events, Some(ErrWatcher), taken;
      }
      if events.invalidated {
        env.incidents.Note(WatchLost(taken));
        return events, Some(ErrWatcherInvalidated), taken;
      }
      return events, None, taken;
    }

    /** The part of a pass after its scan: drains the readers, then takes the notifications. */
    method HandleAll(mode: RecordMode)
      returns (records: nat, bytes: nat, events: DirectoryEvents, error: Option<Error>, ghost turns: Turns)
      requires Valid() && AllKnown(registry.readers.Keys, env.world)
      modifies registry.readerSet`lastFingerprint, registry.decoderSet, env`world, env`schedule, env.incidents
      modifies handler, handler.processor, handler.processor.state
      ensures Valid()
      ensures AllAdvance(old(registry.Views()), registry.Views())
      ensures Extends(old(handler.log), handler.log, mode)
      ensures records + turns.lost.records == |handler.log| - |old(handler.log)|
      ensures bytes + turns.lost.bytes == TotalRead(registry.Views()) - TotalRead(old(registry.Views()))
      ensures LostLast(handler.log, turns.lost)
      ensures Explains(turns.lost, old(registry.Views()), registry.Views(), registry.maxRecordBytes)
      ensures Blames(error, turns.lost)
      ensures Grew(old(env.world), env.world)
      ensures error.Some? ==> events == NO_EVENTS
      ensures error == None ==>
                && AllAtBoundary() && turns.lost == NO_LOSS
                && registry.IsOldestFirst(turns.order)
                && InTurn(handler.log[|old(handler.log)|..], turns.order, |turns.order|)
                && ReadAll(registry.Views(), old(env.world), registry.readers.Keys)
      ensures error == None && !events.changed ==>
                NothingMissed() && env.world.queue == [] && Evolved(old(env.world), env.world)
      ensures StopsPass(error) && Reported(error, old(env.incidents.log), env.incidents.log)
      ensures Empties(old(env.world), old(env.schedule), env.world, env.schedule, events, error)
      ensures handler.processor.unseen == old(handler.processor.unseen)
      ensures handler.processor.observed == old(handler.processor.observed)
    {
      hide Valid, AllAdvance, TotalRead, AllKnown, Settled, Extends, AllAtBoundary, NothingMissed, TurnsOf, InTurn,
           ReadAll, LostLast, Explains, Grew, Evolved, GenerationRegistry.IsOldestFirst, Rests, TakenFrom, Reported,
           Empties, GenerationRegistry.Views, GenerationRegistry.Framed, GenerationRegistry.Valid;
      ghost var log, before, steps, so := handler.log, env.world, env.schedule, env.incidents.log;
      events := NO_EVENTS;
      records, bytes, error, turns := DrainReaders(mode);
      LostTurn(log, handler.log, mode, turns, error.Some?);
      EvolvedGrew(before, env.world);
      if error.Some? {
        NotEmptied(before, steps, env.world, env.schedule, events, error);
        return;
      }
      ghost var drained, left, more := env.world, env.schedule, env.incidents.log;
      TurnsAreInTurn(handler.log[|log|..], turns, false);
      var flags;
      ghost var taken;
      flags, error, taken := TakeEvents();
      GrewTransitive(before, drained, env.world);
      ReportedOn(error, so, more, env.incidents.log);
      TakenMeans(before, steps, drained, left, env.world, env.schedule, flags, taken, error);
      if error == None {
        events := flags;
        if !flags.changed {
          EvolvedTransitive(before, drained, env.world);
        }
      }
    }

    /** The rest of a pass, with what the whole pass ensures since its start. */
    method HandleFound(mode: RecordMode, registered: nat, ghost start: Point, ghost steps: seq<WriterStep>,
                       ghost keys: set<GenerationID>, ghost incidents: seq<Incident>)
      returns (r: PassResult, error: Option<Error>, ghost turns: Turns)
      requires Valid() && AllKnown(registry.readers.Keys, env.world) && Scans(start, Now(), registered)
      requires Finds(keys, start.world, steps, registry.readers.Keys, env.world, env.schedule, registered, None)
      requires Reported(None, incidents, env.incidents.log)
      modifies registry.readerSet`lastFingerprint, registry.decoderSet, env`world, env`schedule, env.incidents
      modifies handler, handler.processor, handler.processor.state
      ensures Valid() && Takes(start, Now(), mode, r.registered, r.records, r.bytes, turns.lost)
      ensures Blames(error, turns.lost) && (error.Some? ==> r.events == NO_EVENTS)
      ensures error == None ==>
                && AllAtBoundary() && turns.lost == NO_LOSS
                && registry.IsOldestFirst(turns.order)
                && InTurn(handler.log[|old(handler.log)|..], turns.order, |turns.order|)
                && ReadAll(registry.Views(), start.world, registry.readers.Keys)
      ensures error == None && !r.events.changed ==> NothingMissed()
      ensures StopsPass(error) && Reported(error, incidents, env.incidents.log)
      ensures Settles(keys, start.world, steps, registry.readers.Keys, env.world, env.schedule, r, error)
    {
      hide Valid, AllAdvance, TotalRead, AllKnown, Extends, AllAtBoundary, NothingMissed, InTurn, ReadAll, LostLast,
           Explains, Grew, Evolved, Takes, Scans, Settles, Finds, Empties, Reported, StopsPass, Blames, IsBroken,
           GenerationRegistry.IsOldestFirst, GenerationRegistry.Views, GenerationRegistry.Framed,
           GenerationRegistry.Valid;
      ghost var found, left, more := Now(), env.schedule, env.incidents.log;
      var records, bytes, events;
      ReadersOfViews();
      records, bytes, events, error, turns := HandleAll(mode);
      ReadersOfViews();
      ReportedOn(error, incidents, more, env.incidents.log);
      HandledTakes(found, Now(), mode, records, bytes, turns.lost);
      HandlingTakes(start, found, Now(), mode, registered, records, bytes, turns.lost);
      r := PassResult(registered, records, bytes, events);
      PassSettles(keys, start.world, steps, found.world, left, registry.readers.Keys, env.world, env.schedule, r,
                  error);
      ScanGrows(start, found, registered);
      if error == None {
        ReadAllSince(registry.Views(), start.world, found.world, registry.readers.Keys);
      }
    }

    /**
     * One pass. Whatever the writer does meanwhile, the pass only adds to what was
     * handled; and if it ends without an error and without a notification, nothing
     * is missed at its end.
     */
    method Pass(mode: RecordMode)
      returns (r: PassResult, error: Option<Error>, ghost found: seq<Discovered>, ghost turns: Turns)
      requires Valid()
      modifies env`world, env`schedule, env`descriptors, env.incidents
      modifies handler, handler.processor, handler.processor.state
      modifies registry`readers, registry`readerSet, registry`decoderSet, registry.readerSet, registry.decoderSet
      ensures Valid() && Takes(old(Now()), Now(), mode, r.registered, r.records, r.bytes, turns.lost)
      ensures fresh(registry.readerSet - old(registry.readerSet))
      ensures fresh(registry.decoderSet - old(registry.decoderSet))
      ensures fresh(env.descriptors - old(env.descriptors))
      ensures Blames(error, turns.lost) && (error.Some? ==> r.events == NO_EVENTS)
      ensures error == None ==>
                && AllAtBoundary() && turns.lost == NO_LOSS
                && registry.IsOldestFirst(turns.order)
                && InTurn(handler.log[|old(handler.log)|..], turns.order, |turns.order|)
                && ReadAll(registry.Views(), old(env.world), registry.readers.Keys)
                && Sees(old(env.world), old(env.schedule), env.queueLimit, found, true)
                && Added(old(registry.Rotations()), old(registry.readers), found)
      ensures error == None && !r.events.changed ==> NothingMissed()
      ensures StopsPass(error) && Reported(error, old(env.incidents.log), env.incidents.log)
      ensures Settles(old(registry.readers.Keys), old(env.world), old(env.schedule), registry.readers.Keys, env.world,
                      env.schedule, r, error)
    {
      hide Valid, Evolved, AllAdvance, TotalRead, AllKnown, AllAtBoundary, NothingMissed, InTurn, ReadAll, BlanksOnly,
           Grew, Sees, Added, Takes, Scans, Settles, Finds, Reported, StopsPass, Blames, IsBroken,
           GenerationRegistry.IsOldestFirst, GenerationRegistry.Views, GenerationRegistry.Framed,
           GenerationRegistry.Valid, GenerationRegistry.Rotations;
      r, turns := PassResult(0, 0, 0, NO_EVENTS), Turns([], 0, NO_LOSS);
      ghost var start, keys, steps, incidents := Now(), registry.readers.Keys, env.schedule, env.incidents.log;
      ViewsOfReaders();
      var registered;
      registered, error, found := Discover();
      ViewsOfReaders();
      EvolvedGrew(start.world, env.world);
      DiscoveredScans(start, Now(), mode, registered);
      r := r.(registered := registered);
      if error.Some? {
        ScanStops(error);
        NotSettled(keys, start.world, steps, registry.readers.Keys, env.world, env.schedule, r, registered, error);
        return;
      }
      r, error, turns := HandleFound(mode, registered, start, steps, keys, incidents);
    }

    // ---- The cutover ----

    /**
     * The state after the cutover: everything accepted up to it was accepted in
     * baseline mode by readers at their boundary, everything since in live mode.
     */
    ghost predicate IsLive()
      reads this`isClosed, this`baselineLog, this`cutoverViews, env, env.descriptors, watcher
      reads handler, handler.processor, handler.processor.state
      reads registry, registry.readerSet`lastFingerprint, registry.decoderSet
      ensures IsLive() ==> registry.Framed()
    {
      && Valid()
      && Extends([], baselineLog, Baseline) && Extends(baselineLog, handler.log, Live)
      && CutoverAt(cutoverViews, baselineLog, registry.maxRecordBytes)
      && AllAdvance(cutoverViews, registry.Views())
    }

    /** Publishes the watermarks of all readers as the boundary of live observation. */
    method PublishCutover()
      requires Valid() && AllAtBoundary() && Extends([], handler.log, Baseline)
      modifies this`cutover, this`baselineLog, this`cutoverViews
      ensures IsLive() && baselineLog == handler.log && cutoverViews == registry.Views()
      ensures MarksOf(cutoverViews, cutover) && registry.IsOldestFirst(GenerationRegistry.Marked(cutover))
    {
      hide Valid, IsLive, AllAtBoundary, GenerationRegistry.Valid, GenerationRegistry.Framed, GenerationRegistry.Views,
           MarksOf, CutoverAt, AllAdvance, Extends, GenerationRegistry.IsOldestFirst;
      RegistryIsValid();
      cutover := registry.Watermarks();
      baselineLog, cutoverViews := handler.log, registry.Views();
      CutoverHere();
      StaysLive(cutoverViews, handler.log);
    }

    lemma RegistryIsValid()
      requires Valid()
      ensures registry.Valid()
    {
    }

    lemma CutoverHere()
      requires Valid() && AllAtBoundary()
      ensures CutoverAt(registry.Views(), handler.log, registry.maxRecordBytes)
      ensures AllAdvance(registry.Views(), registry.Views()) && Extends(handler.log, handler.log, Live)
    {
      hide GenerationRegistry.Valid, RecordHandler.Valid, Environment.Valid, Tidy, Logged, Follow, AtBoundary;
      CutoverNow(registry.Views(), handler.log, registry.maxRecordBytes);
    }

    /** Closes the watcher and every descriptor. */
    method Close()
      requires !isClosed ==> Valid()
      modifies this`isClosed, watcher, registry`readers, registry`isOpen, registry.OwnedFiles()
      ensures isClosed
      ensures !old(isClosed) ==> !watcher.isOpen && forall f :: f in env.descriptors ==> !f.isOpen
    {
      hide GenerationReader.Valid, RecordHandler.Valid, Environment.Valid, Logged, Follow;
      if isClosed {
        return;
      }
      isClosed := true;
      watcher.Close();
      registry.Close();
    }

    /** One pass in baseline mode. */
    method BaselinePass() returns (r: PassResult, error: Option<Error>)
      requires Valid() && Extends([], handler.log, Baseline)
      modifies env`world, env`schedule, env`descriptors, env.incidents
      modifies handler, handler.processor, handler.processor.state
      modifies registry`readers, registry`readerSet, registry`decoderSet, registry.readerSet, registry.decoderSet
      ensures Valid() && Extends([], handler.log, Baseline)
      ensures fresh(registry.readerSet - old(registry.readerSet))
      ensures fresh(registry.decoderSet - old(registry.decoderSet))
      ensures fresh(env.descriptors - old(env.descriptors))
      ensures error == None ==> AllAtBoundary()
      ensures error == None && !r.events.changed ==> NothingMissed()
      ensures handler.processor.observed == old(handler.processor.observed)
      ensures StopsPass(error) && Reported(error, old(env.incidents.log), env.incidents.log)
      ensures Settles(old(registry.readers.Keys), old(env.world), old(env.schedule), registry.readers.Keys, env.world,
                      env.schedule, r, error)
    {
      hide Settles, Takes, StopsPass, Reported, Valid, AllAdvance, TotalRead, Extends, AllAtBoundary, NothingMissed,
           InTurn, ReadAll, LostLast, Explains, Grew, Blames, Sees, Added, GenerationRegistry.IsOldestFirst,
           GenerationRegistry.Views, GenerationRegistry.Framed, GenerationRegistry.Valid,
           GenerationRegistry.Rotations;
      ghost var start, found, turns := Now(), [], Turns([], 0, NO_LOSS);
      r, error, found, turns := Pass(Baseline);
      TakesMeans(start, Now(), Baseline, r.registered, r.records, r.bytes, turns.lost);
      ExtendsOn([], start.log, handler.log, Baseline);
    }

    /** The same unless the context is done; an overflow of the queue is counted. */
    method BaselineRound(ctx: Context) returns (r: PassResult, error: Option<Error>)
      requires Valid() && Extends([], handler.log, Baseline)
      modifies ctx, this`notificationOverflows, env`world, env`schedule, env`descriptors, env.incidents
      modifies handler, handler.processor, handler.processor.state
      modifies registry`readers, registry`readerSet, registry`decoderSet, registry.readerSet, registry.decoderSet
      ensures Valid() && Extends([], handler.log, Baseline)
      ensures fresh(registry.readerSet - old(registry.readerSet))
      ensures fresh(registry.decoderSet - old(registry.decoderSet))
      ensures fresh(env.descriptors - old(env.descriptors))
      ensures error == None ==> AllAtBoundary() && ctx.checksLeft < old(ctx.checksLeft)
      ensures error == None && !r.events.changed ==> NothingMissed()
      ensures notificationOverflows
           == old(notificationOverflows) + if error == None && r.events.overflowed then 1 else 0
      ensures handler.processor.observed == old(handler.processor.observed)
      ensures (StopsPass(error) || IsDone(error)) && ctx.Ends(error)
      ensures Reported(error, old(env.incidents.log), env.incidents.log)
      ensures old(ctx.checksLeft) > 0 ==> !IsDone(error) && ctx.checksLeft == old(ctx.checksLeft) - 1
      ensures IsDone(error) ==> env.world == old(env.world)
      ensures Settles(old(registry.readers.Keys), old(env.world), old(env.schedule), registry.readers.Keys, env.world,
                      env.schedule, r, error)
    {
      hide Valid, Extends, AllAtBoundary, NothingMissed, GenerationRegistry.Framed, StopsPass, Settles, Reported;
      NothingReported(None, env.incidents.log);
      NotSettledYet(registry.readers.Keys, env.world, env.schedule);
      r := PassResult(0, 0, 0, NO_EVENTS);
      error := ctx.Err();
      DoneStops(error, env.incidents.log);
      if error.Some? {
        return;
      }
      r, error := BaselinePass();
      PassIsNotDone(error);
      if error == None && r.events.overflowed {
        notificationOverflows := notificationOverflows + 1;
      }
    }

    lemma EstablishedHere()
      requires IsLive() && NothingMissed() && AllAtBoundary() && registry.readers != map[]
      requires baselineLog == handler.log && cutoverViews == registry.Views() && MarksOf(cutoverViews, cutover)
      requires registry.IsOldestFirst(GenerationRegistry.Marked(cutover))
      ensures IsEstablished()
    {
    }

    /** Before the cutover: everything accepted so far was accepted in baseline mode. */
    ghost predicate IsBaseline()
      reads this`isClosed, env, env.descriptors, handler, handler.processor, handler.processor.state, watcher
      reads registry, registry.readerSet`lastFingerprint, registry.decoderSet
    {
      Valid() && Extends([], handler.log, Baseline)
    }

    /** Nothing is missed, and a report has been found. */
    ghost predicate IsRead()
      reads env, registry, registry.decoderSet
    {
      registry.Framed() && NothingMissed() && AllAtBoundary() && registry.readers != map[]
    }

    /** One round; without a report, and with nothing new, it waits for the next one. */
    method BaselineStep(ctx: Context, ghost incidents: seq<Incident>, ghost enough: bool)
      returns (finished: bool, error: Option<Error>)
      requires IsBaseline() && Reported(None, incidents, env.incidents.log)
      requires Rounds(registry.readers.Keys, env.world, env.schedule, ctx.checksLeft, enough)
      modifies ctx, this`notificationOverflows, env`world, env`schedule, env`descriptors, env.incidents
      modifies handler, handler.processor, handler.processor.state
      modifies registry`readers, registry`readerSet, registry`decoderSet, registry.readerSet, registry.decoderSet
      ensures IsBaseline() && Reported(error, incidents, env.incidents.log)
      ensures fresh(registry.readerSet - old(registry.readerSet))
      ensures fresh(registry.decoderSet - old(registry.decoderSet))
      ensures fresh(env.descriptors - old(env.descriptors))
      ensures error == None ==> ctx.checksLeft < old(ctx.checksLeft)
      ensures error == None && finished ==> IsRead()
      ensures error == None && finished ==> registry.readers.Keys == old(registry.readers.Keys)
      ensures error == None && !finished ==>
                Rounds(registry.readers.Keys, env.world, env.schedule, ctx.checksLeft, enough)
      ensures handler.processor.observed == old(handler.processor.observed)
      ensures (StopsPass(error) || IsDone(error)) && ctx.Ends(error)
      ensures enough && IsDone(error) ==> forall g :: !env.world.Reaches(g)
    {
      hide Settles, StopsPass, Reported, Rounds, World.Reaches, Valid, Extends, NothingMissed, AllAtBoundary,
           GenerationRegistry.Framed;
      ghost var known, world, steps, checks := registry.readers.Keys, env.world, env.schedule, ctx.checksLeft;
      ghost var more := env.incidents.log;
      finished := false;
      var r;
      r, error := BaselineRound(ctx);
      ReportedOn(error, incidents, more, env.incidents.log);
      if error.Some? {
        if IsDone(error) {
          RoundsOver(known, world, steps, enough);
        }
        return;
      }
      if |registry.readers| > 0 && r.registered == 0 && !r.events.changed {
        NothingRegistered(known, world, steps, registry.readers.Keys, env.world, env.schedule, r);
        return true, None;
      }
      if r.registered > 0 || r.events.changed {
        RoundsGo(known, world, steps, checks, registry.readers.Keys, env.world, env.schedule, r, enough);
        return;
      }
      error := ctx.Err();
      DoneStops(error, env.incidents.log);
      ReportedOn(error, incidents, env.incidents.log, env.incidents.log);
      RoundsWait(known, world, steps, checks, registry.readers.Keys, env.world, env.schedule, r, enough,
                 ctx.checksLeft);
    }

    /**
     * Repeats the pass until one finds nothing new, and a report is there. If the writer
     * rests and some report has a name, two looks at the context are enough.
     */
    method ReadBaseline(ctx: Context) returns (error: Option<Error>)
      requires IsBaseline()
      modifies ctx, this`notificationOverflows
      modifies env`world, env`schedule, env`descriptors, env.incidents
      modifies handler, handler.processor, handler.processor.state
      modifies registry`readers, registry`readerSet, registry`decoderSet, registry.readerSet, registry.decoderSet
      ensures IsBaseline()
      ensures fresh(registry.readerSet - old(registry.readerSet))
      ensures fresh(registry.decoderSet - old(registry.decoderSet))
      ensures fresh(env.descriptors - old(env.descriptors))
      ensures error == None ==> IsRead()
      ensures handler.processor.observed == old(handler.processor.observed)
      ensures (StopsPass(error) || IsDone(error)) && ctx.Ends(error)
      ensures Reported(error, old(env.incidents.log), env.incidents.log)
      ensures old(env.schedule) == [] && old(ctx.checksLeft) >= 2 && IsDone(error) ==>
                forall g :: !env.world.Reaches(g)
    {
      hide Context.Ends, IsDone, IsBroken, IsOutside, IsBaseline, IsRead, StopsPass, Reported, Rounds, World.Reaches,
           Valid, Extends, NothingMissed, AllAtBoundary, GenerationRegistry.Framed;
      error := None;
      ghost var incidents := env.incidents.log;
      ghost var enough := env.schedule == [] && ctx.checksLeft >= 2;
      DoneStops(None, incidents);
      RoundsAtStart(registry.readers.Keys, env.world, env.schedule, ctx.checksLeft, enough);
      while true
        invariant IsBaseline() && Reported(None, incidents, env.incidents.log)
        invariant fresh(registry.readerSet - old(registry.readerSet))
        invariant fresh(registry.decoderSet - old(registry.decoderSet))
        invariant fresh(env.descriptors - old(env.descriptors))
        invariant handler.processor.observed == old(handler.processor.observed)
        invariant Rounds(registry.readers.Keys, env.world, env.schedule, ctx.checksLeft, enough)
        decreases ctx.checksLeft
      {
        var finished;
        finished, error := BaselineStep(ctx, incidents, enough);
        if error.Some? || finished {
          return;
        }
      }
    }

    /**
     * Reads everything there is in baseline mode, repeating the pass until one finds
     * nothing new, and then publishes the cutover. At that moment nothing is missed.
     */
    method Establish(ctx: Context) returns (error: Option<Error>)
      requires Valid() && handler.log == []
      modifies ctx, this`notificationOverflows, this`cutover, this`baselineLog, this`cutoverViews
      modifies env`world, env`schedule, env`descriptors, env.incidents
      modifies handler, handler.processor, handler.processor.state
      modifies registry`readers, registry`readerSet, registry`decoderSet, registry.readerSet, registry.decoderSet
      ensures Valid()
      ensures fresh(registry.readerSet - old(registry.readerSet))
      ensures fresh(registry.decoderSet - old(registry.decoderSet))
      ensures fresh(env.descriptors - old(env.descriptors))
      ensures error == None ==> IsEstablished()
      ensures handler.processor.observed == old(handler.processor.observed)
      ensures (StopsPass(error) || IsDone(error)) && ctx.Ends(error)
      ensures Reported(error, old(env.incidents.log), env.incidents.log)
      ensures old(env.schedule) == [] && old(ctx.checksLeft) >= 2 && IsDone(error) ==>
                forall g :: !env.world.Reaches(g)
    {
      hide StopsPass, Reported, World.Reaches, Context.Ends;
      hide Valid, IsLive, IsEstablished, Extends, NothingMissed, AllAtBoundary, AllAdvance, MarksOf,
           GenerationRegistry.IsOldestFirst, GenerationRegistry.Valid, GenerationRegistry.Framed,
           GenerationRegistry.Views;
      ExtendsNot([], Baseline);
      error := ReadBaseline(ctx);
      if error == None {
        PublishCutover();
        EstablishedHere();
      }
    }

    /**
     * Creates a session and establishes its baseline. If that fails, no descriptor
     * stays open.
     */
    static method InitializeSource(ctx: Context, env: Environment, handler: RecordHandler,
                                   maxRecordBytes: int, creationTime: int)
      returns (session: SourceSession?, error: Option<Error>)
      requires env.Valid() && handler.Valid() && handler.log == []
      requires forall f :: f in env.descriptors ==> !f.isOpen
      modifies env`world, env`schedule, env`descriptors, env.incidents
      modifies ctx, handler, handler.processor, handler.processor.state
      ensures session != null <==> error == None
      ensures error == Some(ErrOptions) <==> maxRecordBytes <= 0
      ensures (StopsPass(error) || IsDone(error) || error == Some(ErrOptions)) && ctx.Ends(error)
      ensures Reported(error, old(env.incidents.log), env.incidents.log)
      ensures old(env.schedule) == [] && old(ctx.checksLeft) >= 2 && IsDone(error) ==>
                forall g :: !env.world.Reaches(g)
      ensures fresh(env.descriptors - old(env.descriptors))
      ensures handler.processor.observed == old(handler.processor.observed)
      ensures session != null ==>
                session.IsCreated(env, handler, maxRecordBytes, creationTime) && session.IsEstablished()
      ensures session != null ==>
                && fresh(session) && fresh(session.registry) && fresh(session.watcher)
                && fresh(session.registry.readerSet) && fresh(session.registry.decoderSet)
      ensures session == null ==> forall f :: f in env.descriptors ==> !f.isOpen
    {
      hide SourceSession.IsEstablished, SourceSession.IsCreated, World.Reaches, Environment.Valid, RecordHandler.Valid;
      if maxRecordBytes <= 0 {
        return null, Some(ErrOptions);
      }
      var failed := env.incidents.Strike();
      if failed {
        return null, Some(ErrWatcher);
      }
      session, error := Begin(ctx, env, handler, maxRecordBytes, creationTime);
    }

    /** The session belongs to this environment and handler. */
    ghost predicate IsCreated(env: Environment, handler: RecordHandler, maxRecordBytes: int, creationTime: int) {
      && this.env == env && this.handler == handler
      && registry.maxRecordBytes == maxRecordBytes && this.creationTime == creationTime
    }

    /** A new session, once the directory is watched. */
    static method Begin(ctx: Context, env: Environment, handler: RecordHandler, maxRecordBytes: nat, creationTime: int)
      returns (session: SourceSession?, error: Option<Error>)
      requires env.Valid() && handler.Valid() && handler.log == [] && 0 < maxRecordBytes
      requires forall f :: f in env.descriptors ==> !f.isOpen
      modifies env`world, env`schedule, env`descriptors, env.incidents
      modifies ctx, handler, handler.processor, handler.processor.state
      ensures session != null <==> error == None
      ensures (StopsPass(error) || IsDone(error)) && ctx.Ends(error)
      ensures Reported(error, old(env.incidents.log), env.incidents.log)
      ensures old(env.schedule) == [] && old(ctx.checksLeft) >= 2 && IsDone(error) ==>
                forall g :: !env.world.Reaches(g)
      ensures fresh(env.descriptors - old(env.descriptors))
      ensures handler.processor.observed == old(handler.processor.observed)
      ensures session != null ==>
                session.IsCreated(env, handler, maxRecordBytes, creationTime) && session.IsEstablished()
      ensures session != null ==>
                && fresh(session) && fresh(session.registry) && fresh(session.watcher)
                && fresh(session.registry.readerSet) && fresh(session.registry.decoderSet)
      ensures session == null ==> forall f :: f in env.descriptors ==> !f.isOpen
    {
      hide SourceSession.Valid, SourceSession.IsLive, SourceSession.IsEstablished, World.Reaches, StopsPass, Reported,
           GenerationRegistry.Valid, GenerationRegistry.Framed, GenerationRegistry.Views;
      ghost var known := env.descriptors;
      var s := new SourceSession.Start(env, handler, maxRecordBytes, creationTime);
      error := s.Establish(ctx);
      if error.Some? {
        s.Abandon(known);
        return null, error;
      }
      return s, None;
    }

    /** Closes a session whose descriptors were all opened after `known`. */
    method Abandon(ghost known: set<ReportFile>)
      requires Valid() && forall f :: f in known ==> !f.isOpen
      modifies this`isClosed, watcher, registry`readers, registry`isOpen, env.descriptors - known
      ensures forall f :: f in env.descriptors ==> !f.isOpen
    {
      assert registry.OwnedFiles() <= env.descriptors - known;
      Close();
    }

    // ---- Live operation ----

    /** How far the session has come. */
    ghost function Now(): Point
      requires registry.Framed()
      reads this`notificationOverflows, registry, registry.decoderSet, handler, handler.processor, env
    {
      Point(registry.Views(), handler.log, notificationOverflows, handler.processor.observed, handler.processor.unseen,
            env.world, registry.maxRecordBytes)
    }

    /** One pass in live mode. */
    method LivePass() returns (r: PassResult, error: Option<Error>, ghost lost: Lost)
      requires IsLive()
      modifies env`world, env`schedule, env`descriptors, env.incidents
      modifies handler, handler.processor, handler.processor.state
      modifies registry`readers, registry`readerSet, registry`decoderSet, registry.readerSet, registry.decoderSet
      ensures IsLive()
      ensures fresh(registry.readerSet - old(registry.readerSet))
      ensures fresh(registry.decoderSet - old(registry.decoderSet))
      ensures Tally(old(Now()), Now(), r.Handled(), lost) && Blames(error, lost)
      ensures error.Some? ==> r.events == NO_EVENTS
      ensures error == None ==> AllAtBoundary() && lost == NO_LOSS && Swept(old(Now()), Now())
      ensures error == None && !r.events.changed ==> NothingMissed()
      ensures StopsPass(error) && Reported(error, old(env.incidents.log), env.incidents.log)
      ensures Settles(old(registry.readers.Keys), old(env.world), old(env.schedule), registry.readers.Keys, env.world,
                      env.schedule, r, error)
    {
      hide Settles, Takes, StopsPass, Reported, Valid, IsLive, AllAdvance, TotalRead, Extends, AllAtBoundary,
           NothingMissed, CutoverAt, Tally, InTurn, ReadAll, LostLast, Explains, Grew, Blames, Swept, Follow, Sees,
           Added, PassResult.Handled, GenerationRegistry.IsOldestFirst, GenerationRegistry.Views,
           GenerationRegistry.Framed, GenerationRegistry.Valid;
      ghost var start := Now();
      LiveMeans();
      ghost var found, turns;
      r, error, found, turns := Pass(Live);
      lost := turns.lost;
      TakesMeans(start, Now(), Live, r.registered, r.records, r.bytes, lost);
      StaysLive(start.views, start.log);
      SessionFollows();
      PassIsTallied(start, Now(), r, lost);
      if error == None {
        BoundaryMeans();
        PassSweeps(start, Now());
      }
    }

    lemma SessionFollows()
      requires Valid()
      ensures Follow(registry.Views(), env.world)
    {
    }

    lemma BoundaryMeans()
      requires registry.Framed() && AllAtBoundary()
      ensures forall g :: g in registry.Views() ==> AtBoundary(registry.Views()[g], registry.maxRecordBytes)
      ensures registry.Views().Keys == registry.readers.Keys
    {
      hide AtBoundary;
    }

    lemma LiveMeans()
      requires IsLive()
      ensures Valid() && Extends([], baselineLog, Baseline) && Extends(baselineLog, handler.log, Live)
      ensures CutoverAt(cutoverViews, baselineLog, registry.maxRecordBytes)
      ensures AllAdvance(cutoverViews, registry.Views())
    {
    }

    /** Live calls and progress keep a session live. */
    lemma StaysLive(views: Views, log: seq<Call>)
      requires Valid() && Extends([], baselineLog, Baseline) && Extends(baselineLog, log, Live)
      requires CutoverAt(cutoverViews, baselineLog, registry.maxRecordBytes) && AllAdvance(cutoverViews, views)
      requires AllAdvance(views, registry.Views()) && Extends(log, handler.log, Live)
      ensures IsLive()
    {
      hide Valid, AllAdvance, Extends, CutoverAt;
      AllAdvanceOn(cutoverViews, views, registry.Views());
      ExtendsOn(baselineLog, log, handler.log, Live);
    }

    lemma ReadersOfViews()
      requires registry.Framed()
      ensures registry.Views().Keys == registry.readers.Keys
    {
    }

    lemma ViewsOfReaders()
      requires registry.Framed()
      ensures |registry.Views()| == |registry.readers|
    {
      assert registry.Views().Keys == registry.readers.Keys;
    }

    /** One pass in live mode, unless the context is done; an overflow of the queue is counted. */
    method CheckedPass(ctx: Context) returns (r: PassResult, error: Option<Error>, ghost lost: Lost)
      requires IsLive()
      modifies env`world, env`schedule, env`descriptors, env.incidents
      modifies ctx, this`notificationOverflows, handler, handler.processor, handler.processor.state
      modifies registry`readers, registry`readerSet, registry`decoderSet, registry.readerSet, registry.decoderSet
      ensures IsLive()
      ensures fresh(registry.readerSet - old(registry.readerSet))
      ensures fresh(registry.decoderSet - old(registry.decoderSet))
      ensures Tally(old(Now()), Now(), r.Counted(), lost) && Blames(error, lost)
      ensures ctx.checksLeft <= old(ctx.checksLeft) && ctx.waits == old(ctx.waits)
      ensures notificationOverflows == old(notificationOverflows) + if r.events.overflowed then 1 else 0
      ensures error == None ==> AllAtBoundary() && lost == NO_LOSS && Swept(old(Now()), Now())
      ensures error == None ==> ctx.checksLeft < old(ctx.checksLeft)
      ensures error == None && !r.events.changed ==> NothingMissed()
      ensures (StopsPass(error) || IsDone(error)) && ctx.Ends(error)
      ensures Reported(error, old(env.incidents.log), env.incidents.log)
      ensures old(ctx.checksLeft) > 0 ==> !IsDone(error) && ctx.checksLeft == old(ctx.checksLeft) - 1
      ensures Settles(old(registry.readers.Keys), old(env.world), old(env.schedule), registry.readers.Keys, env.world,
                      env.schedule, r, error)
    {
      hide Settles, StopsPass, Reported, IsLive, Tally, AllAtBoundary, NothingMissed, Now, Swept, PassResult.Counted,
           PassResult.Handled, GenerationRegistry.Views, GenerationRegistry.Framed, GenerationRegistry.Valid;
      r, lost := PassResult(0, 0, 0, NO_EVENTS), NO_LOSS;
      error := CheckContext(ctx);
      NothingCounted(Now());
      DoneStops(error, env.incidents.log);
      NotSettledYet(registry.readers.Keys, env.world, env.schedule);
      if error.Some? {
        return;
      }
      ghost var start := Now();
      r, error, lost := LivePass();
      PassIsNotDone(error);
      CountedIsHandled(start, Now(), r, lost);
      if r.events.overflowed {
        CountOverflow(start, r, lost);
      }
    }

    /** Looks at the context; nothing else changes. */
    method CheckContext(ctx: Context) returns (error: Option<Error>)
      requires registry.Framed()
      modifies ctx
      ensures Now() == old(Now())
      ensures old(IsLive()) ==> IsLive()
      ensures ctx.checksLeft == if old(ctx.checksLeft) == 0 then 0 else old(ctx.checksLeft) - 1
      ensures ctx.waits == old(ctx.waits)
      ensures error == if old(ctx.checksLeft) == 0 then Some(ctx.Reason()) else None
    {
      hide IsLive, Now, GenerationRegistry.Framed;
      error := ctx.Err();
    }

    /** Counts an overflow of the notification queue. */
    method CountOverflow(ghost start: Point, r: PassResult, ghost lost: Lost)
      requires registry.Framed() && r.events.overflowed && Tally(start, Now(), r.Handled(), lost)
      modifies this`notificationOverflows
      ensures notificationOverflows == old(notificationOverflows) + 1
      ensures old(IsLive()) ==> IsLive()
      ensures old(AllAtBoundary()) ==> AllAtBoundary()
      ensures old(NothingMissed()) ==> NothingMissed()
      ensures Tally(start, Now(), r.Counted(), lost) && (Swept(start, old(Now())) ==> Swept(start, Now()))
    {
      hide IsLive, AllAtBoundary, NothingMissed, GenerationRegistry.Framed, GenerationRegistry.Views, Tally, Swept;
      TallyOverflow(start, Now(), r, lost);
      if Swept(start, Now()) {
        SweptOverflow(start, Now());
      }
      notificationOverflows := notificationOverflows + 1;
    }

    /**
     * Repeats live passes until one finds nothing new and no notification. When it
     * returns without an error, nothing is missed and its counts are exact; in any
     * case readers only moved forward and only live calls were added.
     */
    method ReconcileOpen(ctx: Context) returns (result: LiveResult, error: Option<Error>, ghost lost: Lost)
      requires IsLive()
      modifies env`world, env`schedule, env`descriptors, env.incidents
      modifies ctx, this`notificationOverflows, handler, handler.processor, handler.processor.state
      modifies registry`readers, registry`readerSet, registry`decoderSet, registry.readerSet, registry.decoderSet
      ensures IsLive() && Tally(old(Now()), Now(), result, lost) && Blames(error, lost)
      ensures fresh(registry.readerSet - old(registry.readerSet))
      ensures fresh(registry.decoderSet - old(registry.decoderSet))
      ensures error == None ==> NothingMissed() && AllAtBoundary() && lost == NO_LOSS && Swept(old(Now()), Now())
      ensures error == None ==> ctx.checksLeft < old(ctx.checksLeft)
      ensures error == None && result.newGenerations > 0 ==> ctx.checksLeft + 2 <= old(ctx.checksLeft)
      ensures ctx.checksLeft <= old(ctx.checksLeft) && ctx.waits == old(ctx.waits)
      ensures (StopsPass(error) || IsDone(error)) && ctx.Ends(error)
      ensures Reported(error, old(env.incidents.log), env.incidents.log)
      ensures old(ctx.checksLeft) >= 2 * |old(env.schedule)| + 2 ==> !IsDone(error)
    {
      hide Settles, StopsPass, Reported, Need, IsLive, Tally, Clean, Swept, Blames, AllAtBoundary, NothingMissed, Now,
           LiveResult.Plus, PassResult.Counted, GenerationRegistry.Views, GenerationRegistry.Framed,
           GenerationRegistry.Valid;
      result, error, lost := LiveResult(0, 0, 0, 0), None, NO_LOSS;
      ghost var start := Now();
      TallyNot(start);
      ghost var incidents := env.incidents.log;
      ghost var enough := ctx.checksLeft >= 2 * |env.schedule| + 2;
      NothingReported(None, incidents);
      while true
        invariant IsLive() && Tally(start, Now(), result, NO_LOSS) && Clean(start, Now())
        invariant fresh(registry.readerSet - old(registry.readerSet))
        invariant fresh(registry.decoderSet - old(registry.decoderSet))
        invariant ctx.checksLeft <= old(ctx.checksLeft) && ctx.waits == old(ctx.waits)
        invariant Reported(None, incidents, env.incidents.log)
        invariant result.newGenerations > 0 ==> ctx.checksLeft < old(ctx.checksLeft)
        invariant enough ==> Need(registry.readers.Keys, env.world, env.schedule) <= ctx.checksLeft
        decreases ctx.checksLeft
      {
        ghost var before, more := Now(), env.incidents.log;
        ghost var known, world, steps := registry.readers.Keys, env.world, env.schedule;
        var r;
        r, error, lost := CheckedPass(ctx);
        ReportedOn(error, incidents, more, env.incidents.log);
        TallyOn(start, before, Now(), result, r.Counted(), lost);
        if error == None {
          TallySweeps(start, before, Now(), result);
        }
        CountsRegistered(result, r);
        result := result.Plus(r.Counted());
        if error.Some? || (r.registered == 0 && !r.events.changed) {
          return;
        }
        NeedsLess(known, world, steps, registry.readers.Keys, env.world, env.schedule, r);
      }
    }

    /** Reconciles an open session; a closed one refuses. */
    method Reconcile(ctx: Context) returns (result: LiveResult, error: Option<Error>, ghost lost: Lost)
      requires !isClosed ==> IsLive()
      modifies env`world, env`schedule, env`descriptors, env.incidents
      modifies ctx, this`notificationOverflows, handler, handler.processor, handler.processor.state
      modifies registry`readers, registry`readerSet, registry`decoderSet, registry.readerSet, registry.decoderSet
      ensures isClosed ==> error == Some(ErrOsClosed) && result == LiveResult(0, 0, 0, 0) && lost == NO_LOSS
      ensures Blames(error, lost)
      ensures !isClosed ==>
                && IsLive() && Tally(old(Now()), Now(), result, lost)
                && (error == None ==> Swept(old(Now()), Now()))
                && fresh(registry.readerSet - old(registry.readerSet))
                && fresh(registry.decoderSet - old(registry.decoderSet))
                && ctx.checksLeft <= old(ctx.checksLeft)
      ensures ctx.waits == old(ctx.waits)
      ensures error == None ==> NothingMissed() && AllAtBoundary() && lost == NO_LOSS
      ensures error == None && result.newGenerations > 0 ==> ctx.checksLeft + 2 <= old(ctx.checksLeft)
      ensures error == None ==> ctx.checksLeft < old(ctx.checksLeft)
      ensures !isClosed ==> StopsPass(error) || IsDone(error)
      ensures ctx.Ends(error) && Reported(error, old(env.incidents.log), env.incidents.log)
      ensures old(ctx.checksLeft) >= 2 * |old(env.schedule)| + 2 ==>
                && !IsDone(error)
                && (!isClosed && !IsBroken(error) && env.incidents.log == old(env.incidents.log) ==> error == None)
    {
      hide StopsPass, Reported, IsLive, Tally, Swept, AllAtBoundary, NothingMissed, Now, GenerationRegistry.Views,
           GenerationRegistry.Framed, GenerationRegistry.Valid;
      if isClosed {
        NothingReported(Some(ErrOsClosed), env.incidents.log);
        return LiveResult(0, 0, 0, 0), Some(ErrOsClosed), NO_LOSS;
      }
      ghost var incidents := env.incidents.log;
      result, error, lost := ReconcileOpen(ctx);
      NoReason(error, incidents, env.incidents.log);
    }

    /** The watermarks as they are now; none once the session is closed. */
    method CurrentWatermarks() returns (marks: seq<Watermark>)
      requires !isClosed ==> Valid()
      ensures isClosed ==> marks == []
      ensures !isClosed ==>
                && registry.Framed() && MarksOf(registry.Views(), marks)
                && registry.IsOldestFirst(GenerationRegistry.Marked(marks))
    {
      hide MarksOf, GenerationRegistry.Valid, RecordHandler.Valid, Environment.Valid, GenerationRegistry.IsOldestFirst;
      if isClosed {
        return [];
      }
      marks := registry.Watermarks();
    }

    /** The watermarks of exactly the generations without a committed closing bracket, each once. */
    ghost predicate UncleanAre(unclean: seq<Watermark>)
      requires registry.Framed()
      reads registry, registry.decoderSet
    {
      MarksOf(Unclosed(registry.Views()), unclean)
    }

    /**
     * The last reconciliations before the session ends: repeated until the deadline,
     * then once more. Without an error, the counts are exact, nothing is missed, and
     * the unclean generations are exactly those not closed by a bracket.
     */
    method DrainSource(ctx: Context)
      returns (result: SourceDrainResult, error: Option<Error>, ghost final: bool, ghost lost: Lost)
      requires !isClosed ==> IsLive()
      modifies env`world, env`schedule, env`descriptors, env.incidents
      modifies ctx, this`notificationOverflows, handler, handler.processor, handler.processor.state
      modifies registry`readers, registry`readerSet, registry`decoderSet, registry.readerSet, registry.decoderSet
      ensures isClosed ==> error == Some(ErrOsClosed)
      ensures !isClosed ==> IsLive() && Tally(old(Now()), Now(), result.live, lost)
      ensures Blames(error, lost)
      ensures ctx.waits == old(ctx.waits) && ctx.checksLeft <= old(ctx.checksLeft)
      ensures error == None ==> ctx.checksLeft + 2 <= old(ctx.checksLeft)
      ensures error == None ==> final && NothingMissed() && AllAtBoundary() && lost == NO_LOSS
      ensures (StopsPass(error) || IsDone(error) || (isClosed && error == Some(ErrOsClosed))) && ctx.Ends(error)
      ensures Reported(error, old(env.incidents.log), env.incidents.log)
      ensures final && error in {None, Some(ErrCanceled)} ==> IsLive() && UncleanAre(result.unclean)
    {
      hide StopsPass, Reported, IsLive, Tally, Clean, Swept, AllAtBoundary, NothingMissed, UncleanAre, MarksOf, Now,
           GenerationRegistry.Views, GenerationRegistry.Framed, GenerationRegistry.Valid;
      result, error := SourceDrainResult(LiveResult(0, 0, 0, 0), []), None;
      final, lost := false, NO_LOSS;
      ghost var incidents := env.incidents.log;
      NothingReported(None, incidents);
      if isClosed {
        NothingReported(Some(ErrOsClosed), incidents);
        error := Some(ErrOsClosed);
        return;
      }
      ghost var start := Now();
      TallyNot(start);
      var reconciled;
      while true
        invariant IsLive() && !isClosed && Tally(start, Now(), result.live, NO_LOSS) && Clean(start, Now())
        invariant fresh(registry.readerSet - old(registry.readerSet))
        invariant fresh(registry.decoderSet - old(registry.decoderSet))
        invariant ctx.waits == old(ctx.waits) && ctx.checksLeft <= old(ctx.checksLeft)
        invariant result.unclean == [] && Reported(None, incidents, env.incidents.log)
        decreases ctx.checksLeft
      {
        ghost var before, more := Now(), env.incidents.log;
        reconciled, error, lost := Reconcile(ctx);
        ReportedOn(error, incidents, more, env.incidents.log);
        TallyOn(start, before, Now(), result.live, reconciled, lost);
        if error == None {
          TallySweeps(start, before, Now(), result.live);
        }
        result := result.(live := result.live.Plus(reconciled));
        if error.Some? {
          return;
        }
        if * {
          break;
        }
        error := CheckContext(ctx);
        if error.Some? {
          DoneStops(error, env.incidents.log);
          ReportedOn(error, incidents, env.incidents.log, env.incidents.log);
          return;
        }
      }
      final := true;
      ghost var before, more := Now(), env.incidents.log;
      var unclean;
      reconciled, unclean, error, lost := FinalReconcile(ctx);
      ReportedOn(error, incidents, more, env.incidents.log);
      TallyOn(start, before, Now(), result.live, reconciled, lost);
      result := SourceDrainResult(result.live.Plus(reconciled), unclean);
    }

    /** The last reconciliation, and what it leaves unclean, also if it was canceled. */
    method FinalReconcile(ctx: Context)
      returns (reconciled: LiveResult, unclean: seq<Watermark>, error: Option<Error>, ghost lost: Lost)
      requires IsLive() && !isClosed
      modifies env`world, env`schedule, env`descriptors, env.incidents
      modifies ctx, this`notificationOverflows, handler, handler.processor, handler.processor.state
      modifies registry`readers, registry`readerSet, registry`decoderSet, registry.readerSet, registry.decoderSet
      ensures IsLive() && Tally(old(Now()), Now(), reconciled, lost) && Blames(error, lost)
      ensures error == None ==> NothingMissed() && AllAtBoundary() && lost == NO_LOSS
      ensures (StopsPass(error) || IsDone(error)) && ctx.Ends(error)
      ensures Reported(error, old(env.incidents.log), env.incidents.log)
      ensures ctx.waits == old(ctx.waits) && ctx.checksLeft <= old(ctx.checksLeft)
      ensures error == None ==> ctx.checksLeft < old(ctx.checksLeft)
      ensures error in {None, Some(ErrCanceled)} ==> UncleanAre(unclean)
    {
      hide StopsPass, Reported, IsLive, Tally, AllAtBoundary, NothingMissed, UncleanAre, Now,
           GenerationRegistry.Views, GenerationRegistry.Framed, GenerationRegistry.Valid;
      unclean := [];
      reconciled, error, lost := Reconcile(ctx);
      if error.Some? && error != Some(ErrCanceled) {
        return;
      }
      unclean := ListUnclean();
    }

    /** Lists the generations that are not closed, oldest first. */
    method ListUnclean() returns (unclean: seq<Watermark>)
      requires IsLive()
      ensures UncleanAre(unclean)
    {
      hide GenerationRegistry.Valid, GenerationRegistry.Views, GenerationRegistry.IsOldestFirst, RecordHandler.Valid,
           Environment.Valid, Logged, Follow, AllAdvance, Extends, CutoverAt, Tidy, MarksOf;
      var marks := CurrentWatermarks();
      unclean := [];
      for i := 0 to |marks|
        invariant unclean == OpenMarks(marks[..i])
      {
        assert marks[..i + 1][..i] == marks[..i];
        if !marks[i].closed {
          unclean := unclean + [marks[i]];
        }
      }
      assert marks[..|marks|] == marks;
      OpenMarksOf(registry.Views(), marks);
    }

    /**
     * Reconciles until the caller stops the session or the source process ends. In
     * any case the counts of the run are bounded by what happened. When it returns
     * without an error, the source has ended and the counts are exact: every record
     * accepted in live mode, every byte read and every generation found since the
     * start of the run is counted once; nothing is missed, and the unclean
     * generations are those without a closing bracket.
     */
    method Run(ctx: Context) returns (result: RunResult, error: Option<Error>, ghost lost: Lost)
      requires IsLive()
      modifies env`world, env`schedule, env`descriptors, env.incidents
      modifies ctx, this`notificationOverflows, handler, handler.processor, handler.processor.state
      modifies registry`readers, registry`readerSet, registry`decoderSet, registry.readerSet, registry.decoderSet
      ensures IsLive() && Tally(old(Now()), Now(), result.live.Plus(result.drain.live), lost) && Blames(error, lost)
      ensures error == None ==>
                && result.sourceEnded && NothingMissed() && AllAtBoundary() && lost == NO_LOSS
                && UncleanAre(result.drain.unclean)
      ensures !result.sourceEnded ==> result.drain == SourceDrainResult(LiveResult(0, 0, 0, 0), [])
      ensures result.reconciliations <= ctx.waits - old(ctx.waits) <= result.reconciliations + 1
      ensures ctx.checksLeft + 2 * result.reconciliations <= old(ctx.checksLeft)
      ensures error == None ==>
                && ctx.waits == old(ctx.waits) + result.reconciliations + 1
                && ctx.checksLeft + 2 * result.reconciliations + 3 <= old(ctx.checksLeft)
      ensures (StopsPass(error) || IsDone(error) || error == Some(ErrIdentity)) && ctx.Ends(error)
      ensures Reported(error, old(env.incidents.log), env.incidents.log)
    {
      hide StopsPass, Reported, IsLive, Tally, Clean, Swept, AllAtBoundary, NothingMissed, UncleanAre, Now,
           LiveResult.Plus, GenerationRegistry.Views, GenerationRegistry.Framed, GenerationRegistry.Valid;
      result := RunResult(LiveResult(0, 0, 0, 0), 0, false, SourceDrainResult(LiveResult(0, 0, 0, 0), []));
      error, lost := None, NO_LOSS;
      ghost var start := Now();
      TallyNot(start);
      LiveIsOpen();
      ghost var incidents := env.incidents.log;
      NothingReported(None, incidents);
      while true
        invariant IsLive() && !isClosed && Tally(start, Now(), result.live, NO_LOSS) && Clean(start, Now())
        invariant fresh(registry.readerSet - old(registry.readerSet))
        invariant fresh(registry.decoderSet - old(registry.decoderSet))
        invariant Reported(None, incidents, env.incidents.log)
        invariant ctx.waits == old(ctx.waits) + result.reconciliations
        invariant ctx.checksLeft + 2 * result.reconciliations <= old(ctx.checksLeft)
        invariant lost == NO_LOSS && !result.sourceEnded
        invariant result.drain == SourceDrainResult(LiveResult(0, 0, 0, 0), [])
        decreases ctx.checksLeft
      {
        PlusNothing(result.live);
        ghost var more := env.incidents.log;
        var ended;
        ended, error := WaitForWork(ctx);
        ReportedOn(error, incidents, more, env.incidents.log);
        if error.Some? {
          return;
        }
        more := env.incidents.log;
        ghost var before := Now();
        if ended {
          result := result.(sourceEnded := true);
          var drained;
          ghost var final;
          drained, error, final, lost := DrainSource(ctx);
          ReportedOn(error, incidents, more, env.incidents.log);
          TallyOn(start, before, Now(), result.live, drained.live, lost);
          result := result.(drain := drained);
          return;
        }
        var reconciled;
        reconciled, error, lost := Reconcile(ctx);
        ReportedOn(error, incidents, more, env.incidents.log);
        TallyOn(start, before, Now(), result.live, reconciled, lost);
        if error == None {
          TallySweeps(start, before, Now(), result.live);
        }
        result := result.(live := result.live.Plus(reconciled));
        PlusNothing(result.live);
        if error.Some? {
          return;
        }
        result := result.(reconciliations := result.reconciliations + 1);
      }
    }

    /** Waits, and then asks whether the source process has ended. */
    method WaitForWork(ctx: Context) returns (ended: bool, error: Option<Error>)
      requires IsLive()
      modifies ctx, env.incidents
      ensures Now() == old(Now()) && IsLive()
      ensures (StopsPass(error) || IsDone(error) || error == Some(ErrIdentity)) && ctx.Ends(error)
      ensures !IsBroken(error) && Reported(error, old(env.incidents.log), env.incidents.log)
      ensures old(ctx.waits) <= ctx.waits <= old(ctx.waits) + 1 && ctx.checksLeft <= old(ctx.checksLeft)
      ensures error == None ==> ctx.waits == old(ctx.waits) + 1 && ctx.checksLeft < old(ctx.checksLeft)
    {
      hide IsLive, Now, GenerationRegistry.Framed, Reported;
      ended := false;
      ghost var incidents := env.incidents.log;
      LiveIsOpen();
      error := Wait(ctx);
      if error.Some? {
        return;
      }
      ghost var more := env.incidents.log;
      ended, error := VerifyIdentity();
      ReportedOn(error, incidents, more, env.incidents.log);
    }

    /** Whether the source process has ended; it may be impossible to tell. */
    method VerifyIdentity() returns (ended: bool, error: Option<Error>)
      requires registry.Framed()
      modifies env.incidents
      ensures Now() == old(Now()) && (old(IsLive()) ==> IsLive())
      ensures error in {None, Some(ErrIdentity)} && Reported(error, old(env.incidents.log), env.incidents.log)
    {
      hide IsLive, Now, GenerationRegistry.Framed;
      ended, error := *, None;
      var failed := env.incidents.Strike();
      if failed {
        error := Some(ErrIdentity);
      }
    }

    /** Waits for a notification or the rescan interval; what is queued stays queued. */
    method Wait(ctx: Context) returns (error: Option<Error>)
      requires registry.Framed()
      modifies ctx, env.incidents
      ensures Now() == old(Now()) && (old(IsLive()) ==> IsLive())
      ensures StopsPass(error) || IsDone(error) || (error == Some(ErrOsClosed) && !watcher.isOpen)
      ensures !IsBroken(error) && ctx.Ends(error) && Reported(error, old(env.incidents.log), env.incidents.log)
      ensures error == None ==> watcher.isOpen && ctx.checksLeft < old(ctx.checksLeft)
      ensures ctx.checksLeft <= old(ctx.checksLeft)
      ensures ctx.waits == old(ctx.waits) + if error == None then 1 else 0
    {
      hide IsLive, Now, GenerationRegistry.Framed;
      error := CheckContext(ctx);
      if error.Some? {
        return;
      }
      if !watcher.isOpen {
        return Some(ErrOsClosed);
      }
      var failed := env.incidents.Strike();
      if failed {
        error := *;
        if error != Some(ErrWatcher) {
          error := Some(ErrWatcherInvalidated);
        }
        return;
      }
      ctx.waits := ctx.waits + 1;
    }

    lemma LiveIsOpen()
      requires IsLive()
      ensures !isClosed && watcher.isOpen
    {
    }
  }

  datatype SourceDrainResult = SourceDrainResult(live: LiveResult, unclean: seq<Watermark>)

  datatype RunResult = RunResult(live: LiveResult, reconciliations: nat, sourceEnded: bool, drain: SourceDrainResult)

  /**
   * What a scan sees while the writer may take these steps: every report with a time
   * that its file had, and if no step changes a name, what the names lead to.
   */
  ghost predicate Sees(w: World, steps: seq<WriterStep>, limit: nat, discovered: seq<Discovered>, ok: bool) {
    && (ok && Steady(steps) ==> Covers(discovered, w.names, w.names.Keys))
    && (forall f :: f in Reports(discovered) ==> WasSeen(w, steps, limit, f))
  }

  // ---- Catching up with a writer that pauses ----

  /** Exactly the generations that report names lead to have been added. */
  ghost predicate AddsNamed(known: set<GenerationID>, w: World, now: set<GenerationID>) {
    forall g :: g in now <==> g in known || w.Reaches(g)
  }

  /** What a scan does; if the writer takes no step meanwhile, it finds what is named. */
  ghost predicate Finds(known: set<GenerationID>, w: World, steps: seq<WriterStep>, now: set<GenerationID>,
                        after: World, left: seq<WriterStep>, registered: nat, error: Option<Error>) {
    && Rests(w, steps, after, left) && known <= now && registered == |now| - |known|
    && (error == None && |left| == |steps| ==> AddsNamed(known, after, now))
  }

  /** What the rest of a pass does; if the writer takes no step, it empties the queue and says so. */
  ghost predicate Empties(w: World, steps: seq<WriterStep>, after: World, left: seq<WriterStep>,
                          events: DirectoryEvents, error: Option<Error>) {
    && |left| <= |steps|
    && (error == None && |left| == |steps| ==>
          HoldsSame(after, w) && after.queue == [] && (events.changed <==> w.queue != []))
  }

  lemma NotEmptied(before: World, steps: seq<WriterStep>, w: World, left: seq<WriterStep>, events: DirectoryEvents,
                   error: Option<Error>)
    requires Rests(before, steps, w, left) && error.Some?
    ensures Empties(before, steps, w, left, events, error)
  {
  }

  lemma TakenMeans(before: World, steps: seq<WriterStep>, start: World, left: seq<WriterStep>, w: World,
                   rest: seq<WriterStep>, flags: DirectoryEvents, taken: seq<Event>, error: Option<Error>)
    requires Rests(before, steps, start, left) && TakenFrom(start, left, w, rest, taken)
    requires error != Some(ErrWatcher) ==> flags == Join(NO_EVENTS, taken) && w.queue == []
    requires error in {None, Some(ErrWatcher), Some(ErrWatcherInvalidated)}
    ensures Empties(before, steps, w, rest, if error == None then flags else NO_EVENTS, error)
  {
    if w.queue == [] {
      assert taken + [] == taken;
    }
  }

  /** No notification is queued, and every generation that a report name leads to has a reader. */
  ghost predicate KnowsAll(known: set<GenerationID>, w: World) {
    w.queue == [] && forall g :: w.Reaches(g) ==> g in known
  }

  /**
   * What a pass registers is new. If the writer takes no step meanwhile, everything is
   * known after it; and if it was before, the pass finds nothing new and no notification.
   */
  ghost predicate Settles(known: set<GenerationID>, w: World, steps: seq<WriterStep>, now: set<GenerationID>,
                          after: World, left: seq<WriterStep>, r: PassResult, error: Option<Error>) {
    && |left| <= |steps|
    && (error == None ==> known <= now && r.registered == |now| - |known|)
    && (error == None && |left| == |steps| ==>
          && KnowsAll(now, after)
          && (KnowsAll(known, w) ==> r.registered == 0 && !r.events.changed))
  }

  lemma BlanksStay(before: Views, after: Views)
    requires BlanksOnly(before, after)
    ensures before.Keys <= after.Keys
  {
  }

  lemma NotSettled(known: set<GenerationID>, w: World, steps: seq<WriterStep>, now: set<GenerationID>,
                   after: World, left: seq<WriterStep>, r: PassResult, registered: nat, error: Option<Error>)
    requires Finds(known, w, steps, now, after, left, registered, error) && error.Some?
    ensures Settles(known, w, steps, now, after, left, r, error)
  {
  }

  /** How many looks at a context it takes at most until everything is known. */
  ghost function Need(known: set<GenerationID>, w: World, steps: seq<WriterStep>): (n: nat)
    ensures 0 < n <= 2 * |steps| + 2
  {
    2 * |steps| + if KnowsAll(known, w) then 1 else 2
  }

  lemma NothingRegistered(known: set<GenerationID>, w: World, steps: seq<WriterStep>, now: set<GenerationID>,
                          after: World, left: seq<WriterStep>, r: PassResult)
    requires Settles(known, w, steps, now, after, left, r, None) && r.registered == 0
    ensures now == known
  {
    assert now == known + (now - known);
  }

  /** A pass that is not the last one needs one look less than before. */
  lemma NeedsLess(known: set<GenerationID>, w: World, steps: seq<WriterStep>, now: set<GenerationID>,
                  after: World, left: seq<WriterStep>, r: PassResult)
    requires Settles(known, w, steps, now, after, left, r, None)
    requires r.registered > 0 || r.events.changed
    ensures Need(now, after, left) < Need(known, w, steps)
  {
  }

  /**
   * What the rounds of a baseline keep while the writer rests: there are looks enough
   * left, or no report has a name.
   */
  ghost predicate Rounds(known: set<GenerationID>, w: World, steps: seq<WriterStep>, checks: nat, enough: bool) {
    enough ==> steps == [] && (Need(known, w, steps) <= checks || (known == {} && KnowsAll(known, w)))
  }

  lemma RoundsAtStart(known: set<GenerationID>, w: World, steps: seq<WriterStep>, checks: nat, enough: bool)
    requires enough ==> steps == [] && checks >= 2
    ensures Rounds(known, w, steps, checks, enough)
  {
  }

  lemma RoundsGo(known: set<GenerationID>, w: World, steps: seq<WriterStep>, checks: nat, now: set<GenerationID>,
                 after: World, left: seq<WriterStep>, r: PassResult, enough: bool)
    requires Rounds(known, w, steps, checks, enough) && Settles(known, w, steps, now, after, left, r, None)
    requires checks > 0 && (r.registered > 0 || r.events.changed)
    ensures Rounds(now, after, left, checks - 1, enough)
  {
    hide KnowsAll;
    NeedsLess(known, w, steps, now, after, left, r);
  }

  /** A round that finds no report at all shows that none has a name, if the writer rests. */
  lemma RoundsWait(known: set<GenerationID>, w: World, steps: seq<WriterStep>, checks: nat, now: set<GenerationID>,
                   after: World, left: seq<WriterStep>, r: PassResult, enough: bool, later: nat)
    requires Rounds(known, w, steps, checks, enough) && Settles(known, w, steps, now, after, left, r, None)
    requires now == {}
    ensures Rounds(now, after, left, later, enough) && (enough ==> forall g :: !after.Reaches(g))
  {
  }

  lemma RoundsOver(known: set<GenerationID>, w: World, steps: seq<WriterStep>, enough: bool)
    requires Rounds(known, w, steps, 0, enough)
    ensures enough ==> forall g :: !w.Reaches(g)
  {
  }

  lemma NotSettledYet(known: set<GenerationID>, w: World, steps: seq<WriterStep>)
    ensures forall r: PassResult, error: Option<Error> :: error.Some? ==>
              Settles(known, w, steps, known, w, steps, r, error)
  {
  }

  /** Looking at a context is no incident. */
  lemma DoneStops(error: Option<Error>, log: seq<Incident>)
    requires error == None || IsDone(error)
    ensures Reported(error, log, log) && !IsBroken(error)
  {
  }

  /** There is no other reason for a pass to end with an error. */
  lemma NoReason(error: Option<Error>, before: seq<Incident>, after: seq<Incident>)
    requires (StopsPass(error) || IsDone(error)) && Reported(error, before, after)
    ensures !IsDone(error) && !IsBroken(error) && after == before ==> error == None
  {
  }

  lemma StopsWithReason(error: Option<Error>, before: seq<Incident>, after: seq<Incident>)
    requires StopsPass(error) && Reported(error, before, after)
    ensures !IsBroken(error) && after == before ==> error == None
  {
  }

  lemma HandledTakes(a: Point, b: Point, mode: RecordMode, records: nat, bytes: nat, lost: Lost)
    requires AllAdvance(a.views, b.views) && Extends(a.log, b.log, mode) && Grew(a.world, b.world)
    requires b == a.(views := b.views, log := b.log, world := b.world) && b.views.Keys == a.views.Keys
    requires records + lost.records == |b.log| - |a.log| && LostLast(b.log, lost)
    requires bytes + lost.bytes == TotalRead(b.views) - TotalRead(a.views)
    requires Explains(lost, a.views, b.views, b.max)
    ensures Takes(a, b, mode, 0, records, bytes, lost)
  {
    hide AllAdvance, Extends, Grew, LostLast, TotalRead, Explains;
    assert |b.views| == |b.views.Keys| == |a.views.Keys| == |a.views|;
  }

  lemma DiscoveredScans(a: Point, b: Point, mode: RecordMode, registered: nat)
    requires BlanksOnly(a.views, b.views) && AllAdvance(a.views, b.views) && Grew(a.world, b.world)
    requires b == a.(views := b.views, world := b.world)
    requires registered == |b.views| - |a.views| && TotalRead(b.views) == TotalRead(a.views)
    ensures Scans(a, b, registered) && Takes(a, b, mode, registered, 0, 0, NO_LOSS)
  {
    hide Takes;
    ScanTakes(a, b, mode, registered);
  }

  lemma PassIsNotDone(error: Option<Error>)
    requires StopsPass(error)
    ensures !IsDone(error)
  {
  }

  lemma PassSettles(known: set<GenerationID>, w: World, steps: seq<WriterStep>, since: World, left: seq<WriterStep>,
                    now: set<GenerationID>, after: World, rest: seq<WriterStep>, r: PassResult, error: Option<Error>)
    requires Finds(known, w, steps, now, since, left, r.registered, None)
    requires Empties(since, left, after, rest, r.events, error)
    ensures Settles(known, w, steps, now, after, rest, r, error)
  {
    if error == None && |rest| == |steps| {
      assert forall g :: after.Reaches(g) <==> since.Reaches(g);
      if KnowsAll(known, w) {
        assert now == known;
      }
    }
  }

  /** The scan has found exactly the generations that report names lead to. */
  ghost predicate SeesAsNamed(w: World, discovered: seq<Discovered>) {
    && Covers(discovered, w.names, w.names.Keys)
    && (forall f :: f in Reports(discovered) ==> w.Reaches(f.generation))
  }

  lemma SeesAll(w: World, steps: seq<WriterStep>, after: World, left: seq<WriterStep>, limit: nat,
                discovered: seq<Discovered>, ok: bool)
    requires Stepped(w, steps, after, left, limit) && Sights(w, steps, limit, left, Reports(discovered))
    requires ok && Still(steps, after, left) ==> Covers(discovered, after.names, after.names.Keys)
    ensures Sees(w, steps, limit, discovered, ok) && Rests(w, steps, after, left)
    ensures ok && |left| == |steps| ==> SeesAsNamed(after, discovered)
    ensures ok && after.queue == [] ==> Covers(discovered, after.names, after.names.Keys)
  {
    hide Covers, WasSeen, Reports, Mutate;
    if |left| == |steps| {
      assert steps[..0] == [];
    }
    if Steady(steps) {
      SteadyKeepsNames(w, steps[..|steps| - |left|], limit);
    }
  }

  /** The readers at the cutover stand at their boundary, and the log is theirs. */
  ghost predicate CutoverAt(views: Views, log: seq<Call>, max: nat) {
    Logged(views, log) && forall g :: g in views ==> AtBoundary(views[g], max)
  }

  lemma CutoverNow(views: Views, log: seq<Call>, max: nat)
    requires Logged(views, log) && forall g :: g in views ==> AtBoundary(views[g], max)
    ensures CutoverAt(views, log, max) && AllAdvance(views, views) && Extends(log, log, Live)
  {
  }

  lemma SettledMeans(views: Views, w: World, max: nat)
    requires Settled(views, w, views.Keys, max)
    ensures forall g :: g in views ==> AtBoundary(views[g], max)
    ensures w.queue == [] ==>
              forall g :: g in views && w.Reaches(g) ==> g in w.files && CaughtUp(views[g], w.files[g], max)
  {
    hide AtBoundary, CaughtUp;
  }

  lemma KnownMeans(known: set<GenerationID>, w: World)
    requires AllKnown(known, w)
    ensures w.queue == [] ==> forall g :: w.Reaches(g) ==> g in known
  {
  }

  lemma NothingScanned()
    ensures Reports([]) == {}
  {
  }

  lemma EvolvedGrew(before: World, after: World)
    requires Evolved(before, after)
    ensures Grew(before, after)
  {
  }

  lemma FollowOnwards(views: Views, before: World, after: World)
    requires Follow(views, before) && Evolved(before, after)
    ensures Follow(views, after)
  {
    FollowOn(views, before, after);
  }

  lemma FollowBlanks(before: Views, after: Views, w: World)
    requires Follow(before, w) && BlanksOnly(before, after)
    requires forall g :: g in after && g !in before ==> g in w.files
    ensures Follow(after, w)
  {
  }

  lemma NamedAreMerged(discovered: seq<Discovered>, rotations: map<GenerationID, nat>, w: World)
    requires Covers(discovered, w.names, w.names.Keys)
    ensures forall g :: w.Reaches(g) ==> g in Merge(rotations, discovered)
  {
    hide Merge, Covers;
    var quiet := w.(queue := []);
    CoversMeansKnown(discovered, rotations, quiet);
    KnownMeans(Merge(rotations, discovered).Keys, quiet);
    assert forall g :: w.Reaches(g) ==> quiet.Reaches(g);
  }

  lemma CoversMeansKnown(discovered: seq<Discovered>, rotations: map<GenerationID, nat>, w: World)
    requires w.queue == [] ==> Covers(discovered, w.names, w.names.Keys)
    ensures AllKnown(Merge(rotations, discovered).Keys, w)
  {
    hide Merge;
    if w.queue == [] {
      forall g | w.Reaches(g)
        ensures g in Merge(rotations, discovered)
      {
        var slot :| slot in w.names && slot <= LAST_SLOT && w.names[slot] == g;
        var i :| 0 <= i < |discovered| && discovered[i].Generation() == w.names[slot];
        assert discovered[i] in discovered;
        MergeIsHighest(rotations, discovered, g);
      }
    }
  }
}
