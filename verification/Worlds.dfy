/**
 * What lies outside the exporter: a directory whose reports another process
 * writes, renames and removes at any time, and the kernel queue that reports it.
 * The exporter's code calls Interfere wherever the writer may get in between.
 */
module Worlds {
  import opened Bytes
  import opened Events
  import opened Ordering

  /**
   * `names` maps directory slots to generations: slots 0 to 9 are the report names,
   * higher slots are files of other names. `files` also holds generations that no
   * name leads to any more.
   */
  datatype World = World(
    names: map<nat, GenerationID>, files: map<GenerationID, seq<Byte>>,
    modified: map<GenerationID, int>, queue: seq<Event>)
  {
    ghost predicate Valid() {
      && (forall slot :: slot in names ==> names[slot] in files)
      && files.Keys == modified.Keys
      && (forall e :: e in queue ==> e.Valid())
    }

    /** One of the ten report names leads to the generation. */
    ghost predicate Reaches(g: GenerationID) {
      exists slot :: slot in names && slot <= 9 && names[slot] == g
    }
  }

  /** A step of the writer, or of anything else that the watch reports. */
  datatype WriterStep =
    | Append(generation: GenerationID, data: seq<Byte>, time: int)
    | Create(slot: nat, generation: GenerationID, time: int)
    | Rename(from: nat, to: nat)
    | Unlink(slot: nat)
    | Disturb(event: Event)

  const NOTICE: Event := Event(1, 2, 0, [])
  const OVERFLOW: Event := Event(0, IN_Q_OVERFLOW, 0, [])

  /** A full queue drops the event, but not without an overflow event in it. */
  function Notify(queue: seq<Event>, e: Event, limit: nat): (r: seq<Event>)
    ensures r != []
  {
    if |queue| < limit then queue + [e]
    else if queue != [] && Overflows(queue[|queue| - 1]) then queue
    else queue + [OVERFLOW]
  }

  /**
   * One atomic step. Every change of the directory, and of a file that a name leads
   * to, is reported; appending to a file without a name is not.
   */
  function Mutate(w: World, step: WriterStep, limit: nat): World {
    match step
    case Append(g, data, time) =>
      if g !in w.files || data == [] then w
      else
        w.(files := w.files[g := w.files[g] + data], modified := w.modified[g := time],
           queue := if g in w.names.Values then Notify(w.queue, NOTICE, limit) else w.queue)
    case Create(slot, g, time) =>
      if g in w.files || slot in w.names then w
      else
        w.(names := w.names[slot := g], files := w.files[g := []], modified := w.modified[g := time],
           queue := Notify(w.queue, NOTICE, limit))
    case Rename(from, to) =>
      if from !in w.names || from == to then w
      else w.(names := (w.names - {from})[to := w.names[from]], queue := Notify(w.queue, NOTICE, limit))
    case Unlink(slot) =>
      if slot !in w.names then w
      else w.(names := w.names - {slot}, queue := Notify(w.queue, NOTICE, limit))
    case Disturb(event) => w.(queue := Notify(w.queue, event, limit))
  }

  /** A step adds at most one event to the queue, at its end. */
  lemma MutateQueues(w: World, step: WriterStep, limit: nat)
    ensures w.queue <= Mutate(w, step, limit).queue && |Mutate(w, step, limit).queue| <= |w.queue| + 1
  {
  }

  /** The writer has taken no step back; while it takes none, the world rests. */
  ghost predicate Rests(before: World, left: seq<WriterStep>, after: World, rest: seq<WriterStep>) {
    |rest| <= |left| && (|rest| == |left| ==> after == before)
  }

  lemma RestsNot(w: World, left: seq<WriterStep>)
    ensures Rests(w, left, w, left)
  {
  }

  /** Several steps, one after the other. */
  function MutateAll(w: World, steps: seq<WriterStep>, limit: nat): World {
    if steps == [] then w else Mutate(MutateAll(w, steps[..|steps| - 1], limit), steps[|steps| - 1], limit)
  }

  /** Steps that leave the names alone. */
  predicate Steady(steps: seq<WriterStep>) {
    forall step :: step in steps ==> step.Append? || step.Disturb?
  }

  lemma {:induction false} SteadyKeepsNames(w: World, steps: seq<WriterStep>, limit: nat)
    requires Steady(steps)
    ensures MutateAll(w, steps, limit).names == w.names
  {
    if steps != [] {
      var last := steps[|steps| - 1];
      assert last in steps;
      SteadyKeepsNames(w, steps[..|steps| - 1], limit);
    }
  }

  /** The writer has taken the first steps of what it was going to do. */
  ghost predicate Stepped(w: World, schedule: seq<WriterStep>, after: World, left: seq<WriterStep>, limit: nat) {
    && |left| <= |schedule| && left == schedule[|schedule| - |left|..]
    && after == MutateAll(w, schedule[..|schedule| - |left|], limit)
  }

  lemma {:induction false} MutateAllSplits(w: World, a: seq<WriterStep>, b: seq<WriterStep>, limit: nat)
    ensures MutateAll(w, a + b, limit) == MutateAll(MutateAll(w, a, limit), b, limit)
  {
    if b == [] {
      assert a + b == a;
    } else {
      assert (a + b)[..|a + b| - 1] == a + b[..|b| - 1];
      MutateAllSplits(w, a, b[..|b| - 1], limit);
    }
  }

  lemma SteppedNot(w: World, schedule: seq<WriterStep>, limit: nat)
    ensures Stepped(w, schedule, w, schedule, limit)
  {
  }

  lemma SteppedOn(a: World, s: seq<WriterStep>, b: World, t: seq<WriterStep>, c: World, u: seq<WriterStep>, limit: nat)
    requires Stepped(a, s, b, t, limit) && Stepped(b, t, c, u, limit)
    ensures Stepped(a, s, c, u, limit)
  {
    var m, n := |s| - |t|, |t| - |u|;
    assert s[..m + n] == s[..m] + t[..n];
    MutateAllSplits(a, s[..m], t[..n], limit);
  }

  lemma SteppedOnce(a: World, s: seq<WriterStep>, b: World, t: seq<WriterStep>, limit: nat)
    requires Stepped(a, s, b, t, limit) && t != []
    ensures Stepped(a, s, Mutate(b, t[0], limit), t[1..], limit)
  {
    var m := |s| - |t|;
    assert s[..m + 1][..m] == s[..m] && s[m] == t[0];
  }

  /** Generations stay and their files only grow. */
  ghost predicate Grew(before: World, after: World) {
    forall g :: g in before.files ==> g in after.files && before.files[g] <= after.files[g]
  }

  /** The two worlds show the same names, and the same contents behind them. */
  ghost predicate LooksSame(before: World, after: World) {
    && after.names == before.names
    && forall slot :: slot in before.names && before.names[slot] in before.files ==>
         before.names[slot] in after.files
         && after.files[before.names[slot]] == before.files[before.names[slot]]
  }

  /**
   * How the world may change while the exporter takes nothing from the queue. An
   * empty queue at the end proves that nothing in the directory has changed.
   */
  ghost predicate Evolved(before: World, after: World) {
    && Grew(before, after)
    && (after.queue == [] ==> before.queue == [] && LooksSame(before, after))
  }

  lemma AppendEvolves(w: World, g: GenerationID, data: seq<Byte>, time: int, limit: nat)
    requires w.Valid()
    ensures Mutate(w, Append(g, data, time), limit).Valid()
    ensures Evolved(w, Mutate(w, Append(g, data, time), limit))
  {
    hide Notify;
    NotifyKeeps(w.queue, NOTICE, limit);
    assert forall slot :: slot in w.names ==> w.names[slot] in w.names.Values;
  }

  /** A notification leaves a queue of well-formed events that is not empty. */
  lemma NotifyKeeps(queue: seq<Event>, e: Event, limit: nat)
    requires e.Valid() && forall x :: x in queue ==> x.Valid()
    ensures Notify(queue, e, limit) != [] && forall x :: x in Notify(queue, e, limit) ==> x.Valid()
  {
  }

  lemma MutateEvolves(w: World, step: WriterStep, limit: nat)
    requires w.Valid() && (step.Disturb? ==> step.event.Valid())
    ensures Mutate(w, step, limit).Valid()
    ensures Evolved(w, Mutate(w, step, limit))
  {
    hide Notify;
    if step.Append? {
      AppendEvolves(w, step.generation, step.data, step.time, limit);
    } else {
      NotifyKeeps(w.queue, if step.Disturb? then step.event else NOTICE, limit);
    }
  }

  lemma {:induction false} MutateAllGrows(w: World, steps: seq<WriterStep>, limit: nat)
    requires w.Valid() && forall step :: step in steps && step.Disturb? ==> step.event.Valid()
    ensures MutateAll(w, steps, limit).Valid() && Grew(w, MutateAll(w, steps, limit))
  {
    hide Mutate, World.Valid;
    if steps != [] {
      var front, last := steps[..|steps| - 1], steps[|steps| - 1];
      assert last in steps && forall step :: step in front ==> step in steps;
      MutateAllGrows(w, front, limit);
      MutateEvolves(MutateAll(w, front, limit), last, limit);
      GrewTransitive(w, MutateAll(w, front, limit), MutateAll(w, steps, limit));
    }
  }

  lemma EvolvedAtStart(w: World)
    ensures Evolved(w, w)
  {
  }

  lemma EvolvedTransitive(a: World, b: World, c: World)
    requires Evolved(a, b) && Evolved(b, c)
    ensures Evolved(a, c)
  {
    forall g | g in a.files
      ensures g in c.files && a.files[g] <= c.files[g]
    {
      assert g in b.files && a.files[g] <= b.files[g] <= c.files[g];
    }
  }

  lemma GrewTransitive(a: World, b: World, c: World)
    requires Grew(a, b) && Grew(b, c)
    ensures Grew(a, c)
  {
    forall g | g in a.files
      ensures g in c.files && a.files[g] <= c.files[g]
    {
      assert g in b.files && a.files[g] <= b.files[g] <= c.files[g];
    }
  }

  /** A report opened for reading: generation and times as they were when it was opened. */
  class ReportFile {
    const generation: GenerationID
    const modified: int
    var isOpen: bool

    constructor (generation: GenerationID, modified: int)
      ensures isOpen && this.generation == generation && this.modified == modified
    {
      this.generation, this.modified, isOpen := generation, modified, true;
    }

    method Close()
      modifies this
      ensures !isOpen
    {
      isOpen := false;
    }
  }

  datatype OpenResult = Opened(report: ReportFile) | NotExist | OpenFailed

  /** What the exporter cannot help: why one of its calls has to fail. */
  datatype Incident =
    | CallFailed
    | StaleReport(generation: GenerationID, modified: int)
    | RecordRefused(text: seq<Byte>)
    | WatchLost(events: seq<Event>)

  /** Reports are called stale only if their files are not newer than the process. */
  ghost predicate StaleIsOld(before: seq<Incident>, after: seq<Incident>, creationTime: int) {
    forall i :: |before| <= i < |after| && after[i].StaleReport? ==> after[i].modified <= creationTime
  }

  /** Everything of the kind that has happened so far. */
  class Incidents {
    ghost var log: seq<Incident>

    /** Anything outside the exporter may fail at any time. */
    method Strike() returns (failed: bool)
      modifies this
      ensures log == if failed then old(log) + [CallFailed] else old(log)
    {
      failed := *;
      if failed {
        log := log + [CallFailed];
      }
    }

    ghost method Note(incident: Incident)
      modifies this
      ensures log == old(log) + [incident]
    {
      log := log + [incident];
    }
  }

  /** What is known of a writer: of the world, and of what it is still going to do. */
  type Promise = (World, seq<WriterStep>) -> bool

  /** The promise is kept by each step, and whatever is taken from the queue. */
  ghost predicate Lasting(promise: Promise, limit: nat) {
    && (forall w: World, steps: seq<WriterStep> ::
          w.Valid() && promise(w, steps) && steps != [] ==> promise(Mutate(w, steps[0], limit), steps[1..]))
    && (forall w: World, steps: seq<WriterStep>, queue: seq<Event> ::
          promise(w, steps) ==> promise(w.(queue := queue), steps))
  }

  lemma PromiseKept(promise: Promise, w: World, steps: seq<WriterStep>, limit: nat)
    requires Lasting(promise, limit) && w.Valid() && promise(w, steps) && steps != []
    ensures promise(Mutate(w, steps[0], limit), steps[1..])
  {
  }

  lemma PromiseOutlastsQueue(promise: Promise, w: World, steps: seq<WriterStep>, limit: nat, queue: seq<Event>)
    requires Lasting(promise, limit) && promise(w, steps)
    ensures promise(w.(queue := queue), steps)
  {
  }

  /** The promise holds after any number of steps, for the steps that are left. */
  lemma {:induction false} PromiseAlong(promise: Promise, w: World, steps: seq<WriterStep>, limit: nat, j: nat)
    requires Lasting(promise, limit) && w.Valid() && promise(w, steps) && j <= |steps|
    requires forall step :: step in steps && step.Disturb? ==> step.event.Valid()
    ensures promise(MutateAll(w, steps[..j], limit), steps[j..])
  {
    hide Lasting, Mutate, World.Valid;
    if j == 0 {
      assert steps[0..] == steps;
    } else {
      PromiseAlong(promise, w, steps, limit, j - 1);
      MutateAllGrows(w, steps[..j - 1], limit);
      PromiseKept(promise, MutateAll(w, steps[..j - 1], limit), steps[j - 1..], limit);
      assert steps[..j][..j - 1] == steps[..j - 1] && steps[j - 1..][1..] == steps[j..];
    }
  }

  /** The two worlds hold the same reports under the same names, whatever is queued. */
  predicate HoldsSame(a: World, b: World) {
    a.names == b.names && a.files == b.files && a.modified == b.modified
  }

  lemma StepIgnoresQueue(a: World, b: World, step: WriterStep, limit: nat)
    requires HoldsSame(a, b)
    ensures HoldsSame(Mutate(a, step, limit), Mutate(b, step, limit))
  {
    hide Notify;
  }

  lemma {:induction false} QueueIgnored(a: World, b: World, steps: seq<WriterStep>, limit: nat)
    requires HoldsSame(a, b)
    ensures HoldsSame(MutateAll(a, steps, limit), MutateAll(b, steps, limit))
  {
    hide Mutate, HoldsSame;
    if steps != [] {
      var n := |steps| - 1;
      QueueIgnored(a, b, steps[..n], limit);
      StepIgnoresQueue(MutateAll(a, steps[..n], limit), MutateAll(b, steps[..n], limit), steps[n], limit);
    }
  }

  lemma MutateFirst(w: World, steps: seq<WriterStep>, limit: nat)
    requires steps != []
    ensures MutateAll(w, steps, limit) == MutateAll(Mutate(w, steps[0], limit), steps[1..], limit)
  {
    hide Mutate;
    var first := [steps[0]];
    assert first + steps[1..] == steps && first[..0] == [];
    MutateAllSplits(w, first, steps[1..], limit);
  }

  /** The writer is known to leave the reports like this in the end. */
  ghost function EndPromise(end: World, limit: nat): Promise {
    (w, steps) => HoldsSame(MutateAll(w, steps, limit), end)
  }

  lemma EndPromiseLasts(end: World, limit: nat)
    ensures Lasting(EndPromise(end, limit), limit)
  {
    hide Mutate, MutateAll;
    var promise := EndPromise(end, limit);
    forall w: World, steps: seq<WriterStep> | w.Valid() && promise(w, steps) && steps != []
      ensures promise(Mutate(w, steps[0], limit), steps[1..])
    {
      MutateFirst(w, steps, limit);
    }
    forall w: World, steps: seq<WriterStep>, queue: seq<Event> | promise(w, steps)
      ensures promise(w.(queue := queue), steps)
    {
      QueueIgnored(w.(queue := queue), w, steps, limit);
    }
  }

  class Environment {
    const queueLimit: nat
    const incidents: Incidents
    var world: World
    /** What the writer is still going to do; any finite list. */
    var schedule: seq<WriterStep>
    /** Every report ever opened. */
    ghost var descriptors: set<ReportFile>
    /** What is known of the writer; nothing, unless a run is to be studied that a certain writer causes. */
    ghost var promise: Promise

    ghost predicate Valid()
      reads this
    {
      && world.Valid()
      && (forall step :: step in schedule && step.Disturb? ==> step.event.Valid())
      && Lasting(promise, queueLimit) && promise(world, schedule)
    }

    /** A world in which the writer is going to take these steps. */
    constructor (world: World, schedule: seq<WriterStep>, queueLimit: nat)
      requires world.Valid() && forall step :: step in schedule && step.Disturb? ==> step.event.Valid()
      ensures Valid() && this.world == world && this.schedule == schedule && this.queueLimit == queueLimit
      ensures descriptors == {} && fresh(incidents)
    {
      incidents := new Incidents;
      this.world, this.schedule, this.queueLimit := world, schedule, queueLimit;
      descriptors, promise := {}, (_, _) => true;
    }

    /** Lets the writer take any number of steps. */
    method Interfere()
      requires Valid()
      modifies this`world, this`schedule
      ensures Valid()
      ensures Evolved(old(world), world)
      ensures Stepped(old(world), old(schedule), world, schedule, queueLimit)
      ensures Rests(old(world), old(schedule), world, schedule)
      ensures old(world).queue <= world.queue
      ensures |world.queue| - |old(world).queue| <= |old(schedule)| - |schedule|
    {
      hide Mutate, Evolved, World.Valid, MutateAll, Lasting;
      var steps: nat :| steps <= |schedule|;
      EvolvedAtStart(world);
      SteppedNot(world, schedule, queueLimit);
      for i := 0 to steps
        invariant Valid()
        invariant Evolved(old(world), world)
        invariant Stepped(old(world), old(schedule), world, schedule, queueLimit)
        invariant |schedule| == |old(schedule)| - i
        invariant i == 0 ==> world == old(world)
        invariant old(world).queue <= world.queue && |world.queue| <= |old(world).queue| + i
      {
        MutateQueues(world, schedule[0], queueLimit);
        SteppedOnce(old(world), old(schedule), world, schedule, queueLimit);
        PromiseKept(promise, world, schedule, queueLimit);
        MutateEvolves(world, schedule[0], queueLimit);
        EvolvedTransitive(old(world), world, Mutate(world, schedule[0], queueLimit));
        world := Mutate(world, schedule[0], queueLimit);
        schedule := schedule[1..];
      }
    }

    /**
     * Opens the report of a slot. It may be gone; it is refused if its file is older
     * than the process; and opening may fail.
     */
    method OpenReport(slot: nat, creationTime: int) returns (r: OpenResult)
      requires Valid()
      modifies this`descriptors, incidents
      ensures Valid()
      ensures r.Opened? ==>
                && slot in world.names && r.report.generation == world.names[slot]
                && r.report.generation in world.files && r.report.generation in world.modified
                && r.report.modified == world.modified[r.report.generation] > creationTime
                && fresh(r.report) && r.report.isOpen && descriptors == old(descriptors) + {r.report}
      ensures !r.Opened? ==> descriptors == old(descriptors)
      ensures r.NotExist? <==> slot !in world.names
      ensures !r.OpenFailed? ==> incidents.log == old(incidents.log)
      ensures r.OpenFailed? ==>
                || incidents.log == old(incidents.log) + [CallFailed]
                || (var g := world.names[slot];
                    && world.modified[g] <= creationTime
                    && incidents.log == old(incidents.log) + [StaleReport(g, world.modified[g])])
    {
      hide Lasting;
      if slot !in world.names {
        return NotExist;
      }
      var failed := incidents.Strike();
      if failed {
        return OpenFailed;
      }
      var g := world.names[slot];
      if world.modified[g] <= creationTime {
        incidents.Note(StaleReport(g, world.modified[g]));
        return OpenFailed;
      }
      var report := new ReportFile(g, world.modified[g]);
      descriptors := descriptors + {report};
      return Opened(report);
    }

    /** Fills a buffer with some of the queued events, at least one. */
    method ReadEvents() returns (buffer: seq<Byte>, ghost taken: seq<Event>)
      requires Valid() && world.queue != []
      modifies this`world
      ensures Valid() && taken != []
      ensures (forall e :: e in taken ==> e.Valid()) && buffer == EncodeAll(taken)
      ensures old(world.queue) == taken + world.queue
      ensures world == old(world).(queue := world.queue)
    {
      hide Lasting;
      var count: nat :| 0 < count <= |world.queue|;
      var events := world.queue[..count];
      assert world.queue == events + world.queue[count..];
      buffer := EncodeAll(events);
      PromiseOutlastsQueue(promise, world, schedule, queueLimit, world.queue[count..]);
      world := world.(queue := world.queue[count..]);
      taken := events;
    }
  }

  /** Turns queued events into a reason to scan again. */
  class DirectoryWatcher {
    var isOpen: bool

    /** A new watch starts with an empty queue. */
    constructor (env: Environment)
      requires env.Valid()
      modifies env`world
      ensures env.Valid() && isOpen
      ensures env.world == old(env.world).(queue := [])
    {
      hide Lasting;
      isOpen := true;
      new;
      PromiseOutlastsQueue(env.promise, env.world, env.schedule, env.queueLimit, []);
      env.world := env.world.(queue := []);
    }

    /**
     * Takes events until the queue is empty: those that were queued, and behind them
     * at most one for each step that the writer takes meanwhile. If none was taken, the
     * directory is as it was when Drain was called. It fails only if the watch is
     * closed or reading it fails.
     */
    method Drain(env: Environment) returns (events: DirectoryEvents, ok: bool, ghost taken: seq<Event>)
      requires env.Valid()
      modifies env`world, env`schedule, env.incidents
      ensures env.Valid() && Grew(old(env.world), env.world)
      ensures ok ==> isOpen && env.world.queue == []
      ensures ok ==> events == Join(NO_EVENTS, taken)
      ensures TakenFrom(old(env.world), old(env.schedule), env.world, env.schedule, taken)
      ensures ok && |env.schedule| == |old(env.schedule)| ==> taken == old(env.world).queue
      ensures taken == [] ==> Evolved(old(env.world), env.world)
      ensures ok || !isOpen ==> env.incidents.log == old(env.incidents.log)
      ensures !ok && isOpen ==> env.incidents.log == old(env.incidents.log) + [CallFailed]
    {
      hide Lasting, Mutate;
      events, taken := NO_EVENTS, [];
      JoinNone(NO_EVENTS);
      if !isOpen {
        return events, false, taken;
      }
      while true
        invariant env.Valid() && Grew(old(env.world), env.world) && isOpen
        invariant events == Join(NO_EVENTS, taken)
        invariant TakenFrom(old(env.world), old(env.schedule), env.world, env.schedule, taken)
        invariant taken == [] ==> Evolved(old(env.world), env.world)
        invariant env.incidents.log == old(env.incidents.log)
        decreases |env.schedule|, |env.world.queue|
      {
        Await(env, old(env.world), old(env.schedule), taken);
        var failed := env.incidents.Strike();
        if failed {
          return events, false, taken;
        }
        if env.world.queue == [] {
          assert taken + [] == taken;
          return events, true, taken;
        }
        var buffer, some := TakeSome(env, old(env.world), old(env.schedule), taken);
        WalkOfAll(some);
        var whole;
        whole, events := CollectDirectoryEvents(buffer, events);
        JoinMore(NO_EVENTS, taken, some);
        taken := taken + some;
        if !whole {
          assert false;
        }
      }
    }

    /** The writer goes on. */
    method Await(env: Environment, ghost start: World, ghost steps: seq<WriterStep>, ghost taken: seq<Event>)
      requires env.Valid() && Grew(start, env.world) && (taken == [] ==> Evolved(start, env.world))
      requires TakenFrom(start, steps, env.world, env.schedule, taken)
      modifies env`world, env`schedule
      ensures env.Valid() && Grew(start, env.world) && (taken == [] ==> Evolved(start, env.world))
      ensures TakenFrom(start, steps, env.world, env.schedule, taken)
      ensures |env.schedule| <= |old(env.schedule)|
      ensures |env.schedule| == |old(env.schedule)| ==> env.world == old(env.world)
    {
      hide Lasting, Mutate, MutateAll, World.Valid;
      ghost var before, left := env.world, env.schedule;
      env.Interfere();
      GrewTransitive(start, before, env.world);
      if taken == [] {
        EvolvedTransitive(start, before, env.world);
      }
      TakenLater(start, steps, before, left, env.world, env.schedule, taken);
    }

    /** Reads some of the events that are queued. */
    method TakeSome(env: Environment, ghost start: World, ghost steps: seq<WriterStep>, ghost taken: seq<Event>)
      returns (buffer: seq<Byte>, ghost some: seq<Event>)
      requires env.Valid() && env.world.queue != [] && Grew(start, env.world)
      requires TakenFrom(start, steps, env.world, env.schedule, taken)
      modifies env`world
      ensures env.Valid() && Grew(start, env.world) && some != [] && |env.world.queue| < |old(env.world).queue|
      ensures (forall e :: e in some ==> e.Valid()) && buffer == EncodeAll(some)
      ensures TakenFrom(start, steps, env.world, env.schedule, taken + some)
    {
      hide Lasting, World.Valid;
      buffer, some := env.ReadEvents();
      assert taken + (some + env.world.queue) == taken + some + env.world.queue;
    }

    method Close()
      modifies this
      ensures !isOpen
    {
      isOpen := false;
    }
  }

  /**
   * What was taken and what is left is what was queued, and behind it at most one event
   * for each step taken since. Without a step nothing but the queue has changed.
   */
  ghost predicate TakenFrom(start: World, steps: seq<WriterStep>, w: World, left: seq<WriterStep>, taken: seq<Event>) {
    && start.queue <= taken + w.queue && |left| <= |steps|
    && |taken| + |w.queue| - |start.queue| <= |steps| - |left|
    && (|left| == |steps| ==> HoldsSame(w, start))
  }

  lemma TakenLater(start: World, steps: seq<WriterStep>, before: World, left: seq<WriterStep>,
                   after: World, rest: seq<WriterStep>, taken: seq<Event>)
    requires TakenFrom(start, steps, before, left, taken) && Rests(before, left, after, rest)
    requires before.queue <= after.queue && |after.queue| - |before.queue| <= |left| - |rest|
    ensures TakenFrom(start, steps, after, rest, taken)
  {
    assert taken + after.queue == taken + before.queue + after.queue[|before.queue|..];
  }

  lemma WalkOfAll(events: seq<Event>)
    requires forall e :: e in events ==> e.Valid()
    ensures WalkEvents(EncodeAll(events)) == Walk(events, true)
  {
    EventsRoundTrip(events, []);
    assert EncodeAll(events) + [] == EncodeAll(events);
    assert events + [] == events;
  }
}
