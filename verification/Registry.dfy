/**
 * The readers of one source session, one per generation, kept when the report is
 * renamed or loses its name. Scanning opens what the directory shows; registering
 * takes over every descriptor that the scan opened.
 */
module Registries {
  import opened Wrappers
  import opened Measurements
  import opened Ordering
  import opened Decoders
  import opened Worlds
  import opened Processing
  import opened Progress
  import opened Readers

  function MarkOf(g: GenerationID, v: View): Watermark {
    Watermark(g, v.committed, LastDigest(v.delivered), v.closed)
  }

  /** No generation has two watermarks. */
  ghost predicate NoneTwice(marks: seq<Watermark>) {
    forall i, j :: 0 <= i < j < |marks| ==> marks[i].generation != marks[j].generation
  }

  /** One watermark per reader: its committed offset, last fingerprint and whether it has closed. */
  ghost predicate MarksOf(views: Views, marks: seq<Watermark>) {
    && (forall i :: 0 <= i < |marks| ==>
          && marks[i].generation in views && marks[i] == MarkOf(marks[i].generation, views[marks[i].generation]))
    && NoneTwice(marks)
    && (forall g :: g in views ==> exists i :: 0 <= i < |marks| && marks[i].generation == g)
  }

  /** The readers without a committed closing bracket. */
  function Unclosed(views: Views): Views {
    map g | g in views && !views[g].closed :: views[g]
  }

  /** The watermarks of those that have not closed, in the order of the list. */
  function OpenMarks(marks: seq<Watermark>): seq<Watermark> {
    if marks == [] then []
    else
      var last := marks[|marks| - 1];
      OpenMarks(marks[..|marks| - 1]) + if last.closed then [] else [last]
  }

  lemma {:induction false} OpenMarksAre(marks: seq<Watermark>)
    requires NoneTwice(marks)
    ensures forall m :: m in OpenMarks(marks) <==> m in marks && !m.closed
    ensures NoneTwice(OpenMarks(marks))
  {
    if marks != [] {
      var n := |marks| - 1;
      OpenMarksAre(marks[..n]);
      assert marks == marks[..n] + [marks[n]];
      forall m | m in OpenMarks(marks[..n])
        ensures m.generation != marks[n].generation
      {
        var k :| 0 <= k < n && marks[..n][k] == m;
        assert marks[k] == m;
      }
    }
  }

  /** Leaving out the closed ones leaves exactly the watermarks of the unclosed readers. */
  lemma {:induction false} OpenMarksOf(views: Views, marks: seq<Watermark>)
    requires MarksOf(views, marks)
    ensures MarksOf(Unclosed(views), OpenMarks(marks))
  {
    OpenMarksAre(marks);
    var open := OpenMarks(marks);
    forall i | 0 <= i < |open|
      ensures open[i].generation in Unclosed(views)
              && open[i] == MarkOf(open[i].generation, Unclosed(views)[open[i].generation])
    {
      assert open[i] in marks;
    }
    forall g | g in Unclosed(views)
      ensures exists i :: 0 <= i < |open| && open[i].generation == g
    {
      var k :| 0 <= k < |marks| && marks[k].generation == g;
      assert marks[k] in open;
    }
  }

  datatype Discovered = Discovered(rotation: nat, report: ReportFile) {
    function Generation(): GenerationID { report.generation }
  }

  /** Different entries hold different descriptors. */
  ghost predicate Distinct(discovered: seq<Discovered>) {
    forall i, j :: 0 <= i < j < |discovered| ==> discovered[i].report != discovered[j].report
  }

  /** One more sighting: a generation keeps the highest rotation it was seen at. */
  function MergeOne(rotations: map<GenerationID, nat>, d: Discovered): map<GenerationID, nat> {
    var g := d.Generation();
    if g in rotations && rotations[g] >= d.rotation then rotations else rotations[g := d.rotation]
  }

  function Merge(rotations: map<GenerationID, nat>, discovered: seq<Discovered>): map<GenerationID, nat> {
    if discovered == [] then rotations
    else MergeOne(Merge(rotations, discovered[..|discovered| - 1]), discovered[|discovered| - 1])
  }

  /**
   * After merging, a generation's rotation is the highest it has ever been seen at:
   * no less than before and than any sighting, and equal to one of them.
   */
  lemma {:induction false} MergeIsHighest(rotations: map<GenerationID, nat>, discovered: seq<Discovered>,
                                          g: GenerationID)
    ensures var after := Merge(rotations, discovered);
            && (g in after <==> g in rotations || exists d :: d in discovered && d.Generation() == g)
            && (g in after && g in rotations ==> after[g] >= rotations[g])
            && (g in after ==> forall d :: d in discovered && d.Generation() == g ==> after[g] >= d.rotation)
            && (g in after ==> (g in rotations && after[g] == rotations[g])
                               || exists d :: d in discovered && d.Generation() == g && d.rotation == after[g])
  {
    if discovered != [] {
      var before, last := discovered[..|discovered| - 1], discovered[|discovered| - 1];
      assert forall d :: d in discovered <==> d in before || d == last;
      MergeIsHighest(rotations, before, g);
    }
  }

  function Reports(discovered: seq<Discovered>): set<ReportFile> {
    set d | d in discovered :: d.report
  }

  method CloseReports(discovered: seq<Discovered>)
    modifies Reports(discovered)
    ensures forall f :: f in Reports(discovered) ==> !f.isOpen
  {
    for i := 0 to |discovered|
      invariant forall k :: 0 <= k < i ==> !discovered[k].report.isOpen
    {
      assert discovered[i] in discovered;
      discovered[i].report.Close();
    }
  }

  // ---- Scanning ----

  /** Every listed slot that has been looked at is covered, with its rotation or a higher one. */
  ghost predicate FindsAll(discovered: seq<Discovered>, names: map<nat, GenerationID>, looked: set<nat>) {
    forall slot :: slot in looked && slot in names && slot <= LAST_SLOT ==>
      exists i :: 0 <= i < |discovered| && discovered[i].Generation() == names[slot] && slot <= discovered[i].rotation
  }

  /** Every entry is covered by a listed slot, its rotation. */
  ghost predicate FindsOnly(discovered: seq<Discovered>, names: map<nat, GenerationID>, looked: set<nat>) {
    forall i :: 0 <= i < |discovered| ==>
      && discovered[i].rotation in looked && discovered[i].rotation in names && discovered[i].rotation <= LAST_SLOT
      && names[discovered[i].rotation] == discovered[i].Generation()
  }

  ghost predicate Covers(discovered: seq<Discovered>, names: map<nat, GenerationID>, looked: set<nat>) {
    FindsAll(discovered, names, looked) && FindsOnly(discovered, names, looked)
  }

  /** Each generation once. */
  ghost predicate Unique(discovered: seq<Discovered>) {
    forall i, j :: 0 <= i < j < |discovered| ==> discovered[i].Generation() != discovered[j].Generation()
  }

  /** Unique generations, with the index of each. */
  ghost predicate Indexed(discovered: seq<Discovered>, byGeneration: map<GenerationID, nat>) {
    && (forall g :: g in byGeneration ==>
          byGeneration[g] < |discovered| && discovered[byGeneration[g]].Generation() == g)
    && (forall i :: 0 <= i < |discovered| ==>
          discovered[i].Generation() in byGeneration && byGeneration[discovered[i].Generation()] == i)
  }

  lemma IndexedIsUnique(discovered: seq<Discovered>, byGeneration: map<GenerationID, nat>)
    requires Indexed(discovered, byGeneration)
    ensures Unique(discovered) && Distinct(discovered)
  {
  }

  lemma SameReports(discovered: seq<Discovered>, at: nat, d: Discovered)
    requires at < |discovered| && d.report == discovered[at].report
    ensures Reports(discovered[at := d]) == Reports(discovered)
  {
    hide Reports;
    var after := discovered[at := d];
    InReports(discovered);
    InReports(after);
    forall i | 0 <= i < |discovered|
      ensures after[i].report == discovered[i].report
    {
    }
    forall f
      ensures f in Reports(after) <==> f in Reports(discovered)
    {
      if f in Reports(discovered) {
        var i :| 0 <= i < |discovered| && discovered[i].report == f;
        assert after[i].report == f;
      }
      if f in Reports(after) {
        var i :| 0 <= i < |after| && after[i].report == f;
        assert discovered[i].report == f;
      }
    }
  }

  /** Seeing a generation again at a higher name raises its rotation. */
  lemma SeenAgain(discovered: seq<Discovered>, byGeneration: map<GenerationID, nat>, at: nat, slot: nat,
                  names: map<nat, GenerationID>, looked: set<nat>)
    requires Indexed(discovered, byGeneration) && at < |discovered| && slot <= LAST_SLOT
    ensures var rotation := if slot > discovered[at].rotation then slot else discovered[at].rotation;
            var after := discovered[at := discovered[at].(rotation := rotation)];
            && Indexed(after, byGeneration) && Reports(after) == Reports(discovered)
            && (Covers(discovered, names, looked) && slot in names && names[slot] == discovered[at].Generation()
                ==> Covers(after, names, looked + {slot}))
  {
    hide Reports;
    var rotation := if slot > discovered[at].rotation then slot else discovered[at].rotation;
    var after := discovered[at := discovered[at].(rotation := rotation)];
    SameReports(discovered, at, after[at]);
    if Covers(discovered, names, looked) && slot in names && names[slot] == discovered[at].Generation() {
      forall s | s in looked + {slot} && s in names && s <= LAST_SLOT
        ensures exists i :: 0 <= i < |after| && after[i].Generation() == names[s] && s <= after[i].rotation
      {
        if s == slot {
          assert after[at].Generation() == names[s] && s <= after[at].rotation;
        } else {
          var i :| 0 <= i < |discovered| && discovered[i].Generation() == names[s] && s <= discovered[i].rotation;
          assert after[i].Generation() == names[s] && s <= after[i].rotation;
        }
      }
    }
  }

  /** A generation seen for the first time. */
  lemma SeenFirst(discovered: seq<Discovered>, byGeneration: map<GenerationID, nat>, d: Discovered,
                  names: map<nat, GenerationID>, looked: set<nat>)
    requires Indexed(discovered, byGeneration) && d.Generation() !in byGeneration && d.rotation <= LAST_SLOT
    ensures var after := discovered + [d];
            && Indexed(after, byGeneration[d.Generation() := |discovered|])
            && Reports(after) == Reports(discovered) + {d.report}
            && (Covers(discovered, names, looked) && d.rotation in names && names[d.rotation] == d.Generation()
                ==> Covers(after, names, looked + {d.rotation}))
  {
    var after := discovered + [d];
    assert forall x :: x in after <==> x in discovered || x == d;
    assert after[|discovered|] == d;
    if Covers(discovered, names, looked) && d.rotation in names && names[d.rotation] == d.Generation() {
      forall s | s in looked + {d.rotation} && s in names && s <= LAST_SLOT
        ensures exists i :: 0 <= i < |after| && after[i].Generation() == names[s] && s <= after[i].rotation
      {
        if s == d.rotation {
          assert after[|discovered|].Generation() == names[s];
        } else {
          var i :| 0 <= i < |discovered| && discovered[i].Generation() == names[s] && s <= discovered[i].rotation;
          assert after[i] == discovered[i];
        }
      }
    }
  }

  lemma NothingToCover(discovered: seq<Discovered>, names: map<nat, GenerationID>, looked: set<nat>, slot: nat)
    requires Covers(discovered, names, looked) && slot > LAST_SLOT
    ensures Covers(discovered, names, looked + {slot})
  {
  }

  /**
   * Opens every report that the directory lists, in whatever order it lists them,
   * while names may move. Each generation appears once, with the highest rotation
   * it was seen at and the time it had when it was opened; if no name changed
   * meanwhile, exactly the generations that names lead to appear, each with its
   * highest name. Every descriptor opened is either handed out or closed.
   */
  method ScanReports(env: Environment, creationTime: int) returns (discovered: seq<Discovered>, ok: bool)
    requires env.Valid()
    modifies env`world, env`schedule, env`descriptors, env.incidents
    ensures env.Valid() && Evolved(old(env.world), env.world)
    ensures Unique(discovered) && Distinct(discovered)
    ensures Kept(env, old(env.descriptors), Reports(discovered))
    ensures fresh(env.descriptors - old(env.descriptors))
    ensures !ok ==> discovered == []
    ensures ok && Still(old(env.schedule), env.world, env.schedule) ==>
              Covers(discovered, env.world.names, env.world.names.Keys)
    ensures Stepped(old(env.world), old(env.schedule), env.world, env.schedule, env.queueLimit)
    ensures Sights(old(env.world), old(env.schedule), env.queueLimit, env.schedule, Reports(discovered))
    ensures Reported(if ok then None else Some(ErrScan), old(env.incidents.log), env.incidents.log)
    ensures StaleIsOld(old(env.incidents.log), env.incidents.log, creationTime)
    ensures forall f :: f in Reports(discovered) ==> f.modified > creationTime
  {
    hide Covers, Indexed, Reports, Unique, Distinct, Evolved, Environment.Valid, Stepped, Still, Sights, Kept;
    discovered := [];
    ghost var start, steps := env.world, env.schedule;
    env.Interfere();
    ghost var listed, known := env.world.names, env.descriptors;
    var byGeneration: map<GenerationID, nat> := map[];
    NothingYet(listed);
    NothingSeen(start, steps, env.queueLimit);
    NothingKept(env);
    IndexedIsUnique(discovered, byGeneration);
    var failed := env.incidents.Strike();
    if failed {
      return [], false;
    }
    var rest := env.world.names.Keys;
    ghost var looked: set<nat> := {};
    while rest != {}
      invariant env.Valid() && Evolved(start, env.world)
      invariant looked + rest == listed.Keys
      invariant Stepped(start, steps, env.world, env.schedule, env.queueLimit)
      invariant Still(steps, env.world, env.schedule) ==>
                  env.world.names == listed && Covers(discovered, listed, looked)
      invariant Sights(start, steps, env.queueLimit, env.schedule, Reports(discovered))
      invariant Indexed(discovered, byGeneration)
      invariant env.incidents.log == old(env.incidents.log)
      invariant Kept(env, known, Reports(discovered)) && fresh(env.descriptors - known)
      invariant Reports(discovered) <= env.descriptors - known
      invariant forall f :: f in Reports(discovered) ==> f.modified > creationTime
      decreases rest
    {
      var slot :| slot in rest;
      rest := rest - {slot};
      Await(env, start, steps, Reports(discovered), known);
      if slot > LAST_SLOT {
        if Covers(discovered, listed, looked) {
          NothingToCover(discovered, listed, looked, slot);
        }
        looked := looked + {slot};
        continue;
      }
      discovered, byGeneration, ok :=
        LookAt(env, slot, creationTime, discovered, byGeneration, start, steps, listed, looked, known);
      looked := looked + {slot};
      if !ok {
        NothingYet(listed);
        NothingSeen(start, steps, env.queueLimit);
        IndexedIsUnique([], map[]);
        return [], false;
      }
    }
    IndexedIsUnique(discovered, byGeneration);
    return discovered, true;
  }

  /** Of the descriptors opened since, exactly these are open; their files are there. */
  ghost predicate Kept(env: Environment, known: set<ReportFile>, reports: set<ReportFile>)
    reads env, env.descriptors
  {
    && known <= env.descriptors && reports <= env.descriptors - known
    && (forall f :: f in env.descriptors - known ==> (f.isOpen <==> f in reports))
    && (forall f :: f in reports ==> f.generation in env.world.files)
  }

  /** Opens what a report name leads to, if anything. If that fails, nothing stays open. */
  method LookAt(env: Environment, slot: nat, creationTime: int, discovered: seq<Discovered>,
                byGeneration: map<GenerationID, nat>, ghost start: World, ghost steps: seq<WriterStep>,
                ghost listed: map<nat, GenerationID>, ghost looked: set<nat>, ghost known: set<ReportFile>)
    returns (after: seq<Discovered>, index: map<GenerationID, nat>, ok: bool)
    requires env.Valid() && slot <= LAST_SLOT && slot in listed && Indexed(discovered, byGeneration)
    requires Stepped(start, steps, env.world, env.schedule, env.queueLimit)
    requires Still(steps, env.world, env.schedule) ==> env.world.names == listed && Covers(discovered, listed, looked)
    requires Sights(start, steps, env.queueLimit, env.schedule, Reports(discovered))
    requires Kept(env, known, Reports(discovered))
    requires forall f :: f in Reports(discovered) ==> f.modified > creationTime
    modifies env`descriptors, env.incidents, Reports(discovered)
    ensures env.Valid() && Indexed(after, index)
    ensures Still(steps, env.world, env.schedule) && ok ==> Covers(after, listed, looked + {slot})
    ensures ok ==> Sights(start, steps, env.queueLimit, env.schedule, Reports(after))
    ensures Kept(env, known, if ok then Reports(after) else {}) && Reports(after) <= env.descriptors - known
    ensures old(env.descriptors) <= env.descriptors && fresh(env.descriptors - old(env.descriptors))
    ensures Reported(if ok then None else Some(ErrScan), old(env.incidents.log), env.incidents.log)
    ensures StaleIsOld(old(env.incidents.log), env.incidents.log, creationTime)
    ensures forall f :: f in Reports(after) ==> f.modified > creationTime
  {
    hide Covers, Indexed, Reports, Environment.Valid, Stepped, Still, Sights;
    var r := env.OpenReport(slot, creationTime);
    if r.NotExist? {
      assert !Still(steps, env.world, env.schedule);
      return discovered, byGeneration, true;
    }
    if r.OpenFailed? {
      CloseReports(discovered);
      return discovered, byGeneration, false;
    }
    SeenNow(start, steps, env.world, env.schedule, env.queueLimit, slot, r.report, Reports(discovered));
    after, index := Include(discovered, byGeneration, slot, r.report, listed, looked);
    ok := true;
  }

  lemma NothingKept(env: Environment)
    ensures Kept(env, env.descriptors, {})
  {
  }

  lemma NothingYet(names: map<nat, GenerationID>)
    ensures Covers([], names, {}) && Indexed([], map[]) && Reports([]) == {}
  {
  }

  function IndexOf(discovered: seq<Discovered>, byGeneration: map<GenerationID, nat>, g: GenerationID): (at: nat)
    requires g in byGeneration && Indexed(discovered, byGeneration)
    ensures at < |discovered| && discovered[at].Generation() == g
  {
    byGeneration[g]
  }

  /** A report just opened: its generation is added, or raised and the second descriptor closed. */
  method Include(discovered: seq<Discovered>, byGeneration: map<GenerationID, nat>, slot: nat, report: ReportFile,
                 ghost names: map<nat, GenerationID>, ghost seen: set<nat>)
    returns (after: seq<Discovered>, index: map<GenerationID, nat>)
    requires Indexed(discovered, byGeneration) && slot <= LAST_SLOT
    requires report.isOpen && report !in Reports(discovered)
    modifies report
    ensures Indexed(after, index) && report.isOpen == (report.generation !in byGeneration)
    ensures Reports(after) == if report.isOpen then Reports(discovered) + {report} else Reports(discovered)
    ensures Covers(discovered, names, seen) && slot in names && names[slot] == report.generation
            ==> Covers(after, names, seen + {slot})
  {
    hide Covers, Indexed, Reports;
    var g := report.generation;
    if g in byGeneration {
      var at := IndexOf(discovered, byGeneration, g);
      SeenAgain(discovered, byGeneration, at, slot, names, seen);
      after := discovered;
      if slot > discovered[at].rotation {
        after := discovered[at := discovered[at].(rotation := slot)];
      }
      assert slot <= discovered[at].rotation ==> discovered[at := discovered[at]] == discovered;
      report.Close();
      return after, byGeneration;
    }
    SeenFirst(discovered, byGeneration, Discovered(slot, report), names, seen);
    return discovered + [Discovered(slot, report)], byGeneration[g := |discovered|];
  }

  /**
   * Lets the writer take steps; if the queue is empty afterwards, or none of the
   * steps since the start changed a name, the names are as they were.
   */
  method Await(env: Environment, ghost start: World, ghost steps: seq<WriterStep>, ghost reports: set<ReportFile>,
               ghost known: set<ReportFile>)
    requires env.Valid() && Evolved(start, env.world) && Kept(env, known, reports)
    requires Stepped(start, steps, env.world, env.schedule, env.queueLimit)
    requires Sights(start, steps, env.queueLimit, env.schedule, reports)
    modifies env`world, env`schedule
    ensures env.Valid() && Evolved(start, env.world) && Kept(env, known, reports)
    ensures Stepped(start, steps, env.world, env.schedule, env.queueLimit)
    ensures Sights(start, steps, env.queueLimit, env.schedule, reports)
    ensures Still(steps, env.world, env.schedule) ==>
              Still(steps, old(env.world), old(env.schedule)) && env.world.names == old(env.world).names
  {
    hide Environment.Valid, WasSeen;
    ghost var before, left := env.world, env.schedule;
    env.Interfere();
    EvolvedTransitive(start, before, env.world);
    SteppedOn(start, steps, before, left, env.world, env.schedule, env.queueLimit);
    StaysStill(start, steps, before, left, env.world, env.schedule, env.queueLimit);
  }

  /** Nothing has been reported, or none of the steps taken so far changed a name. */
  ghost predicate Still(steps: seq<WriterStep>, w: World, left: seq<WriterStep>) {
    w.queue == [] || (|left| <= |steps| && Steady(steps[..|steps| - |left|]))
  }

  lemma StaysStill(start: World, steps: seq<WriterStep>, before: World, left: seq<WriterStep>,
                   after: World, rest: seq<WriterStep>, limit: nat)
    requires Stepped(start, steps, before, left, limit) && Stepped(start, steps, after, rest, limit)
    requires Evolved(before, after) && |rest| <= |left|
    ensures Still(steps, after, rest) ==> Still(steps, before, left) && after.names == before.names
  {
    hide MutateAll;
    if after.queue != [] && Still(steps, after, rest) {
      var m, n := |steps| - |left|, |steps| - |rest|;
      assert steps[..m] == steps[..n][..m];
      SteadyKeepsNames(start, steps[..m], limit);
      SteadyKeepsNames(start, steps[..n], limit);
    }
  }

  /** A report name leads to the file, and its time is the one recorded when it was opened. */
  ghost predicate FoundIn(w: World, f: ReportFile) {
    w.Reaches(f.generation) && f.generation in w.modified && f.modified == w.modified[f.generation]
  }

  /** The file was opened after some of these steps. */
  ghost predicate WasSeen(start: World, steps: seq<WriterStep>, limit: nat, f: ReportFile) {
    exists j: nat :: j <= |steps| && FoundIn(MutateAll(start, steps[..j], limit), f)
  }

  /** All were seen; and as long as the writer has taken no step, under the names of the start. */
  ghost predicate Sights(start: World, steps: seq<WriterStep>, limit: nat, left: seq<WriterStep>,
                         reports: set<ReportFile>) {
    && (forall f :: f in reports ==> WasSeen(start, steps, limit, f))
    && (|left| >= |steps| ==> forall f :: f in reports ==> start.Reaches(f.generation))
  }

  lemma NothingSeen(start: World, steps: seq<WriterStep>, limit: nat)
    ensures forall left: seq<WriterStep> :: Sights(start, steps, limit, left, {})
  {
  }

  lemma SeenNow(start: World, steps: seq<WriterStep>, w: World, left: seq<WriterStep>, limit: nat, slot: nat,
                f: ReportFile, reports: set<ReportFile>)
    requires Stepped(start, steps, w, left, limit) && Sights(start, steps, limit, left, reports)
    requires slot in w.names && slot <= LAST_SLOT && w.names[slot] == f.generation
    requires f.generation in w.modified && f.modified == w.modified[f.generation]
    ensures Sights(start, steps, limit, left, reports + {f})
  {
    assert FoundIn(w, f);
  }

  // ---- The registry ----

  class GenerationRegistry {
    const maxRecordBytes: nat
    var readers: map<GenerationID, GenerationReader>
    var isOpen: bool

    /** The objects behind the readers. */
    ghost var readerSet: set<GenerationReader>
    ghost var decoderSet: set<Decoder>

    ghost predicate Framed()
      reads this
    {
      forall g :: g in readers ==> readers[g] in readerSet && readers[g].decoder in decoderSet
    }

    /** The descriptor belongs to the reader of its own generation. */
    ghost predicate Owns(f: ReportFile)
      reads this
    {
      f.generation in readers && readers[f.generation].report == f
    }

    /** One reader per generation, with a decoder of its own. */
    ghost predicate Valid()
      reads this, readerSet`lastFingerprint, decoderSet
      ensures Valid() ==> Framed() && 0 < maxRecordBytes
    {
      && Framed()
      && 0 < maxRecordBytes
      && (!isOpen ==> readers == map[])
      && (forall g :: g in readers ==>
            && readers[g].Generation() == g && readers[g].decoder.maxRecordBytes == maxRecordBytes
            && readers[g].Valid())
      && (forall g, h :: g in readers && h in readers && g != h ==> readers[g].decoder != readers[h].decoder)
    }

    constructor (maxRecordBytes: nat)
      requires 0 < maxRecordBytes
      ensures Valid() && isOpen && readers == map[] && this.maxRecordBytes == maxRecordBytes
      ensures readerSet == {} && decoderSet == {}
    {
      this.maxRecordBytes := maxRecordBytes;
      readers, isOpen := map[], true;
      readerSet, decoderSet := {}, {};
    }

    // ---- Registering ----

    ghost function Views(): Views
      requires Framed()
      reads this, decoderSet
    {
      map g | g in readers :: readers[g].GetView()
    }

    ghost function Rotations(): map<GenerationID, nat>
      requires Framed()
      reads this, readerSet`rotation
    {
      map g | g in readers :: readers[g].rotation
    }

    /** If only one reader differs from what the views were, so do the views. */
    lemma OneView(views: Views, g: GenerationID)
      requires Framed() && g in readers && forall h :: h in views ==> h in readers
      requires forall h :: h in readers && h != g ==> h in views && views[h] == readers[h].GetView()
      ensures Views() == views[g := readers[g].GetView()]
    {
      hide GenerationReader.GetView;
    }

    /** A generation seen again: its rotation may rise, the second descriptor is closed. */
    method KeepReader(d: Discovered)
      requires Valid() && d.Generation() in readers && !Owns(d.report)
      modifies readerSet`rotation, d.report
      ensures Valid() && Views() == old(Views())
      ensures Rotations() == MergeOne(old(Rotations()), d)
      ensures !d.report.isOpen
    {
      hide GenerationReader.Valid;
      var existing := readers[d.Generation()];
      if d.rotation > existing.rotation {
        existing.rotation := d.rotation;
      }
      d.report.Close();
    }

    /** A new generation: a blank reader owns its descriptor. */
    method AddReader(d: Discovered)
      requires Valid() && isOpen && d.Generation() !in readers
      modifies this`readers, this`readerSet, this`decoderSet
      ensures Valid() && Views() == old(Views())[d.Generation() := BLANK]
      ensures Rotations() == old(Rotations())[d.Generation() := d.rotation]
      ensures d.Generation() in readers && readers == old(readers)[d.Generation() := readers[d.Generation()]]
      ensures readers[d.Generation()].report == d.report
      ensures fresh(readerSet - old(readerSet)) && fresh(decoderSet - old(decoderSet))
    {
      hide GenerationReader.Valid, Valid, Views, Rotations, GenerationReader.GetView;
      var reader := new GenerationReader(d.report, d.rotation, maxRecordBytes);
      Install(reader);
    }

    lemma ViewsHold(views: Views)
      requires Framed() && views == Views()
      ensures forall h :: h in views <==> h in readers
      ensures forall h :: h in readers ==> views[h] == readers[h].GetView()
    {
    }

    lemma RotationsHold(rotations: map<GenerationID, nat>)
      requires Framed() && rotations == Rotations()
      ensures forall h :: h in rotations <==> h in readers
      ensures forall h :: h in readers ==> rotations[h] == readers[h].rotation
    {
    }

    lemma OneRotation(rotations: map<GenerationID, nat>, g: GenerationID)
      requires Framed() && g in readers && forall h :: h in rotations ==> h in readers
      requires forall h :: h in readers && h != g ==> h in rotations && rotations[h] == readers[h].rotation
      ensures Rotations() == rotations[g := readers[g].rotation]
    {
    }

    /** Puts a reader with a decoder of its own beside those that are there. */
    method Install(reader: GenerationReader)
      requires Valid() && isOpen && reader.Generation() !in readers
      requires reader.Valid() && reader.decoder !in decoderSet && reader.decoder.maxRecordBytes == maxRecordBytes
      modifies this`readers, this`readerSet, this`decoderSet
      ensures Valid() && readers == old(readers)[reader.Generation() := reader]
      ensures Views() == old(Views())[reader.Generation() := reader.GetView()]
      ensures Rotations() == old(Rotations())[reader.Generation() := reader.rotation]
      ensures readerSet == old(readerSet) + {reader} && decoderSet == old(decoderSet) + {reader.decoder}
    {
      hide GenerationReader.Valid, GenerationReader.GetView, Views, Rotations;
      ghost var views, rotations, before := Views(), Rotations(), readers;
      ViewsHold(views);
      RotationsHold(rotations);
      readerSet, decoderSet := readerSet + {reader}, decoderSet + {reader.decoder};
      readers := readers[reader.Generation() := reader];
      forall h | h in readers && h != reader.Generation()
        ensures h in views && views[h] == readers[h].GetView()
        ensures h in rotations && rotations[h] == readers[h].rotation
      {
        assert readers[h] == before[h];
      }
      OneView(views, reader.Generation());
      OneRotation(rotations, reader.Generation());
    }

    /** Takes over one descriptor: closes it, or gives it to a new reader. */
    method RegisterOne(d: Discovered) returns (isNew: bool)
      requires Valid() && isOpen && !Owns(d.report)
      modifies this`readers, this`readerSet, this`decoderSet, readerSet`rotation, d.report
      ensures Valid() && isNew == (d.Generation() !in old(readers))
      ensures Rotations() == MergeOne(old(Rotations()), d)
      ensures d.Generation() in old(Views()) <==> !isNew
      ensures Views() == if isNew then old(Views())[d.Generation() := BLANK] else old(Views())
      ensures !isNew ==> readers == old(readers) && !d.report.isOpen
      ensures isNew ==> d.Generation() in readers && readers == old(readers)[d.Generation() := readers[d.Generation()]]
      ensures fresh(readerSet - old(readerSet)) && fresh(decoderSet - old(decoderSet))
      ensures isNew ==> readers[d.Generation()].report == d.report
      ensures isNew ==> d.report.isOpen == old(d.report.isOpen)
    {
      hide Valid;
      isNew := d.Generation() !in readers;
      if isNew {
        AddReader(d);
      } else {
        KeepReader(d);
      }
    }

    /** The first i descriptors are open exactly if a reader owns them, the others still have no owner. */
    ghost predicate TakenOver(discovered: seq<Discovered>, i: nat)
      reads this, Reports(discovered)
    {
      && (forall k :: 0 <= k < |discovered| ==> discovered[k].report in Reports(discovered))
      && (forall k :: 0 <= k < |discovered| && k < i ==> discovered[k].report.isOpen == Owns(discovered[k].report))
      && (forall k :: i <= k < |discovered| ==> discovered[k].report.isOpen && !Owns(discovered[k].report))
    }

    method RegisterNext(discovered: seq<Discovered>, i: nat) returns (isNew: bool)
      requires Valid() && isOpen && Distinct(discovered) && i < |discovered| && TakenOver(discovered, i)
      modifies this`readers, this`readerSet, this`decoderSet, readerSet`rotation, discovered[i].report
      ensures TakenOver(discovered, i + 1)
      ensures var d := discovered[i];
              && Valid() && isNew == (d.Generation() !in old(readers)) && d.Generation() in readers
              && Rotations() == MergeOne(old(Rotations()), d)
              && (d.Generation() in old(Views()) <==> !isNew)
              && Views() == (if isNew then old(Views())[d.Generation() := BLANK] else old(Views()))
              && readers == (if isNew then old(readers)[d.Generation() := readers[d.Generation()]] else old(readers))
              && (isNew ==> readers[d.Generation()].report == d.report)
      ensures fresh(readerSet - old(readerSet)) && fresh(decoderSet - old(decoderSet))
    {
      hide Valid, Views, Rotations, MergeOne, Framed, Reports, Distinct;
      DistinctFrom(discovered, i);
      isNew := RegisterOne(discovered[i]);
    }

    /** A closed registry closes what it is given. */
    method RefuseAll(discovered: seq<Discovered>)
      requires Valid() && !isOpen
      modifies Reports(discovered)
      ensures Valid() && Rotations() == old(Rotations()) && BlanksOnly(old(Views()), Views())
      ensures forall i :: 0 <= i < |discovered| ==>
                !discovered[i].report.isOpen && !Owns(discovered[i].report)
    {
      InReports(discovered);
      CloseReports(discovered);
    }

    /**
     * Takes over every descriptor of a scan: one for a known generation is closed and
     * may raise that generation's rotation, one for a new generation is owned by its
     * new reader. Readers already there keep their decoders. A closed registry
     * closes everything.
     */
    method Register(discovered: seq<Discovered>) returns (registered: nat, ok: bool)
      requires Valid() && Distinct(discovered)
      requires forall i :: 0 <= i < |discovered| ==> discovered[i].report.isOpen && !Owns(discovered[i].report)
      modifies this`readers, this`readerSet, this`decoderSet, readerSet`rotation, Reports(discovered)
      ensures Valid() && ok == isOpen
      ensures Rotations() == if ok then Merge(old(Rotations()), discovered) else old(Rotations())
      ensures registered == |readers| - |old(readers)|
      ensures forall g :: g in old(readers) ==> g in readers && readers[g] == old(readers[g])
      ensures forall g :: g in readers && g !in old(readers) ==>
                readers[g].report in Reports(discovered) && readers[g].Generation() == g
      ensures BlanksOnly(old(Views()), Views())
      ensures fresh(readerSet - old(readerSet)) && fresh(decoderSet - old(decoderSet))
      ensures forall i :: 0 <= i < |discovered| ==> discovered[i].report.isOpen == Owns(discovered[i].report)
    {
      hide Merge, MergeOne, GenerationReader.Valid, Distinct, Reports, Valid, Views, BlanksOnly, Rotations, Framed;
      registered := 0;
      InReports(discovered);
      if !isOpen {
        RefuseAll(discovered);
        return registered, false;
      }
      ghost var before, rotations, views := readers, Rotations(), Views();
      BlanksNone(views);
      MergeNone(rotations, discovered);
      for i := 0 to |discovered|
        invariant Valid() && isOpen
        invariant Rotations() == Merge(rotations, discovered[..i])
        invariant registered == |readers| - |before|
        invariant forall g :: g in before ==> g in readers && readers[g] == before[g]
        invariant forall g :: g in readers && g !in before ==>
                    readers[g].report in Reports(discovered) && readers[g].Generation() == g
        invariant BlanksOnly(views, Views())
        invariant fresh(readerSet - old(readerSet)) && fresh(decoderSet - old(decoderSet))
        invariant TakenOver(discovered, i)
      {
        MergeNext(rotations, discovered, i);
        BlanksMore(views, Views(), discovered[i].Generation());
        var isNew := RegisterNext(discovered, i);
        if isNew {
          registered := registered + 1;
        }
      }
      assert discovered[..|discovered|] == discovered;
      return registered, true;
    }

    // ---- Draining ----

    lemma InFrame(reader: GenerationReader)
      requires Framed() && reader.Generation() in readers && readers[reader.Generation()] == reader
      ensures reader in readerSet && reader.decoder in decoderSet
    {
    }

    /** Drains one reader; the others stay as they are. */
    method DrainReader(reader: GenerationReader, env: Environment, handler: RecordHandler, mode: RecordMode)
      returns (result: DrainResult, error: Option<Error>)
      requires Valid() && env.Valid() && handler.Valid() && Follow(Views(), env.world)
      requires reader.Generation() in readers && readers[reader.Generation()] == reader
      modifies reader`lastFingerprint, reader.decoder
      modifies env`world, env`schedule, env.incidents
      modifies handler, handler.processor, handler.processor.state
      ensures Valid() && env.Valid() && handler.Valid()
      ensures Evolved(old(env.world), env.world)
      ensures reader.Generation() in env.world.files && reader.GetView().fed <= env.world.files[reader.Generation()]
      ensures Views() == old(Views())[reader.Generation() := reader.GetView()]
      ensures Advances(old(reader.GetView()), reader.GetView())
      ensures handler.log == old(handler.log)
                             + Calls(mode, reader.Generation(),
                                     reader.GetView().delivered[|old(reader.GetView()).delivered|..])
      ensures result.records == |reader.GetView().delivered| - |old(reader.GetView()).delivered|
      ensures result.bytes == |reader.GetView().fed| - |old(reader.GetView()).fed|
      ensures error == None ==>
                CaughtUp(reader.GetView(), env.world.files[reader.Generation()], maxRecordBytes)
      ensures IsBroken(error) ==> Breaks(old(reader.GetView()), reader.GetView(), maxRecordBytes)
      ensures Rests(old(env.world), old(env.schedule), env.world, env.schedule)
      ensures StopsDrain(error) && Reported(error, old(env.incidents.log), env.incidents.log)
      ensures error == Some(ErrOsClosed) ==> !reader.report.isOpen
      ensures handler.processor.unseen == old(handler.processor.unseen)
      ensures handler.processor.observed == old(handler.processor.observed)
    {
      hide CaughtUp, Breaks, Calls, Evolved, Advances, Drained, Rests, Reported, GenerationReader.Valid,
           Environment.Valid, RecordHandler.Valid, Follow, Views;
      ghost var views := Views();
      ViewsHold(views);
      FollowsFile(views, env.world, reader.Generation());
      ghost var view, log := reader.GetView(), handler.log;
      result, error := reader.Drain(env, handler, mode);
      DrainedMeans(view, reader.GetView(), log, handler.log, mode, reader.Generation(), result.records, result.bytes);
      forall g | g in readers && g != reader.Generation()
        ensures readers[g].Valid() && readers[g].GetView() == views[g]
      {
        assert readers[g].decoder != reader.decoder && readers[g] != reader;
      }
      OneView(views, reader.Generation());
    }

    /** One reader of a pass: what the pass keeps is kept, and the reader joins the settled ones. */
    method DrainOne(reader: GenerationReader, env: Environment, handler: RecordHandler, mode: RecordMode,
                    ghost start: Start, ghost records: nat, ghost bytes: nat, ghost done: set<GenerationID>)
      returns (result: DrainResult, error: Option<Error>)
      requires Valid() && env.Valid() && handler.Valid()
      requires reader.Generation() in readers && readers[reader.Generation()] == reader
      requires Moved(start, Views(), handler.log, env.world, mode, records, bytes)
      requires Settled(Views(), env.world, done, maxRecordBytes) && ReadAll(Views(), start.world, done)
      modifies reader`lastFingerprint, reader.decoder
      modifies env`world, env`schedule, env.incidents
      modifies handler, handler.processor, handler.processor.state
      ensures Valid() && env.Valid() && handler.Valid()
      ensures Moved(start, Views(), handler.log, env.world, mode, records + result.records, bytes + result.bytes)
      ensures old(handler.log) <= handler.log && |handler.log| == |old(handler.log)| + result.records
      ensures forall k :: |old(handler.log)| <= k < |handler.log| ==> handler.log[k].generation == reader.Generation()
      ensures error == None ==>
                && Settled(Views(), env.world, done + {reader.Generation()}, maxRecordBytes)
                && ReadAll(Views(), start.world, done + {reader.Generation()})
      ensures Views() == old(Views())[reader.Generation() := reader.GetView()]
      ensures IsLossOf(Lost(result.records, result.bytes, None),
                       Failure(reader.Generation(), old(reader.GetView()), reader.GetView(), IsBroken(error)),
                       maxRecordBytes)
      ensures Rests(old(env.world), old(env.schedule), env.world, env.schedule)
      ensures StopsDrain(error) && Reported(error, old(env.incidents.log), env.incidents.log)
      ensures error == Some(ErrOsClosed) ==> !reader.report.isOpen
      ensures handler.processor.unseen == old(handler.processor.unseen)
      ensures handler.processor.observed == old(handler.processor.observed)
    {
      hide GenerationReader.Valid, RecordHandler.Valid, Valid, Views, Logged, Follow, Settled, Evolved,
           Advances, AllAdvance, Extends, TotalRead, Calls, CaughtUp, Breaks, Moved, Framed, ReadAll, Grew;
      ghost var views, log, world := Views(), handler.log, env.world;
      ghost var g := reader.Generation();
      MovedMeans(start, views, log, world, mode, records, bytes);
      ViewOf(reader);
      result, error := DrainReader(reader, env, handler, mode);
      ReaderDrained(start, views, log, world, mode, records, bytes, done, g, reader.GetView(), env.world,
                    error == None, maxRecordBytes);
    }

    lemma ViewOf(reader: GenerationReader)
      requires Framed() && reader.Generation() in readers && readers[reader.Generation()] == reader
      ensures reader.Generation() in Views() && Views()[reader.Generation()] == reader.GetView()
    {
    }

    /**
     * A pass in which i readers have had their turn: the log went through them in
     * order, and unless the last turn failed they are settled.
     */
    ghost predicate Midway(start: Start, mode: RecordMode, order: seq<GenerationID>, i: nat, settled: bool,
                           log: seq<Call>, w: World, records: nat, bytes: nat)
      requires Framed()
      reads this, readerSet`rotation, decoderSet
    {
      && IsOldestFirst(order) && i <= |order|
      && Moved(start, Views(), log, w, mode, records, bytes)
      && start.log <= log && InTurn(log[|start.log|..], order, i)
      && Untouched(start.views, Views(), order, i)
      && (settled ==> Settled(Views(), w, Among(order, i), maxRecordBytes)
                      && ReadAll(Views(), start.world, Among(order, i)))
    }

    /** The first i generations of the order. */
    static ghost function Among(order: seq<GenerationID>, i: nat): (done: set<GenerationID>)
      requires i <= |order|
      ensures forall g :: g in done <==> g in order[..i]
    {
      set g | g in order[..i]
    }

    static lemma AmongMore(order: seq<GenerationID>, i: nat)
      requires i < |order|
      ensures Among(order, i + 1) == Among(order, i) + {order[i]}
    {
      assert order[..i + 1] == order[..i] + [order[i]];
    }

    /** The turn of the i-th reader in the order. */
    method TakeTurn(reader: GenerationReader, env: Environment, handler: RecordHandler, mode: RecordMode,
                    ghost start: Start, ghost records: nat, ghost bytes: nat, ghost order: seq<GenerationID>,
                    ghost i: nat)
      returns (result: DrainResult, error: Option<Error>, ghost lost: Lost)
      requires Valid() && env.Valid() && handler.Valid()
      requires reader.Generation() in readers && readers[reader.Generation()] == reader
      requires Midway(start, mode, order, i, true, handler.log, env.world, records, bytes)
      requires i < |order| && order[i] == reader.Generation()
      modifies reader`lastFingerprint, reader.decoder
      modifies env`world, env`schedule, env.incidents
      modifies handler, handler.processor, handler.processor.state
      ensures Valid() && env.Valid() && handler.Valid()
      ensures Midway(start, mode, order, i + 1, error == None, handler.log, env.world,
                     records + result.records, bytes + result.bytes)
      ensures old(handler.log) <= handler.log && |handler.log| == |old(handler.log)| + result.records
      ensures forall k :: |old(handler.log)| <= k < |handler.log| ==> handler.log[k].generation == reader.Generation()
      ensures lost.records == result.records && lost.bytes == result.bytes
      ensures lost.failure.Some? && lost.failure.value.generation == reader.Generation()
      ensures lost.failure.value.broken == IsBroken(error) && Explains(lost, start.views, Views(), maxRecordBytes)
      ensures Rests(old(env.world), old(env.schedule), env.world, env.schedule)
      ensures StopsDrain(error) && Reported(error, old(env.incidents.log), env.incidents.log)
      ensures error == Some(ErrOsClosed) ==> !reader.report.isOpen
      ensures handler.processor.unseen == old(handler.processor.unseen)
      ensures handler.processor.observed == old(handler.processor.observed)
    {
      hide GenerationReader.Valid, RecordHandler.Valid, Environment.Valid, Valid, Views, Settled, ReadAll, Moved,
           Framed, InTurn, IsOldestFirst, Among, Untouched, Explains, IsLossOf, IsBroken;
      ghost var views, log, before := Views(), handler.log, reader.GetView();
      ViewOf(reader);
      AmongMore(order, i);
      result, error := DrainOne(reader, env, handler, mode, start, records, bytes, Among(order, i));
      TurnTaken(start.log, log, handler.log, order, i);
      ghost var failure := Failure(reader.Generation(), before, reader.GetView(), IsBroken(error));
      lost := Lost(result.records, result.bytes, Some(failure));
      LossOf(Lost(result.records, result.bytes, None), lost, failure, maxRecordBytes);
      UntouchedMore(start.views, views, order, i, reader.GetView());
      ExplainsFailed(lost, failure, start.views, views, order, i, maxRecordBytes);
    }

    /** What a pass has done, however many readers had their turn. */
    lemma MidwayMeans(start: Start, mode: RecordMode, order: seq<GenerationID>, i: nat, settled: bool,
                      log: seq<Call>, w: World, records: nat, bytes: nat)
      requires Framed() && Midway(start, mode, order, i, settled, log, w, records, bytes)
      ensures Evolved(start.world, w) && Follow(Views(), w) && Logged(Views(), log)
      ensures Views().Keys == start.views.Keys && AllAdvance(start.views, Views()) && Extends(start.log, log, mode)
      ensures records == |log| - |start.log| && bytes == TotalRead(Views()) - TotalRead(start.views)
      ensures IsOldestFirst(order) && i <= |order| && InTurn(log[|start.log|..], order, i)
      ensures settled && i == |order| ==>
                Settled(Views(), w, readers.Keys, maxRecordBytes) && ReadAll(Views(), start.world, readers.Keys)
    {
      hide InTurn, Settled, ReadAll;
      if i == |order| {
        assert order[..i] == order;
        assert Among(order, i) == readers.Keys;
      }
    }

    /** The calls of a pass whose last turn failed. */
    static lemma TurnFailed(start: seq<Call>, before: seq<Call>, after: seq<Call>, order: seq<GenerationID>, i: nat,
                            lost: Lost)
      requires start <= before <= after && i < |order| && InTurn(before[|start|..], order, i)
      requires |after| == |before| + lost.records
      requires lost.failure.Some? && lost.failure.value.generation == order[i]
      requires forall k :: |before| <= k < |after| ==> after[k].generation == order[i]
      ensures TurnsOf(after[|start|..], Turns(order, i, lost), true)
    {
      hide InTurn;
      assert after[|start|..][..|before| - |start|] == before[|start|..];
    }

    static lemma TurnsTaken(calls: seq<Call>, order: seq<GenerationID>)
      requires InTurn(calls, order, |order|)
      ensures TurnsOf(calls, Turns(order, |order|, NO_LOSS), false)
    {
      hide InTurn;
      assert calls[..|calls|] == calls;
    }

    lemma OrderDiffers(order: seq<GenerationID>)
      requires Framed() && IsOldestFirst(order)
      ensures forall j, k :: 0 <= j < k < |order| ==> order[j] != order[k]
      ensures forall k :: 0 <= k < |order| ==> order[k] in readers
    {
      hide Before;
      forall j, k | 0 <= j < k < |order|
        ensures order[j] != order[k]
      {
        if order[j] == order[k] {
          BeforeIsTotal(EntryOf(order[j]), EntryOf(order[k]));
        }
      }
      assert forall k :: 0 <= k < |order| ==> order[k] in order;
    }

    lemma MidwayAtStart(start: Start, mode: RecordMode, order: seq<GenerationID>, w: World)
      requires Framed() && IsOldestFirst(order) && start.views == Views() && start.world == w
      requires Follow(start.views, w) && Logged(start.views, start.log)
      ensures Midway(start, mode, order, 0, true, start.log, w, 0, 0)
    {
      hide IsOldestFirst, Views;
      OrderDiffers(order);
      ViewsHold(start.views);
      MovedNot(start, mode, maxRecordBytes);
      assert Among(order, 0) == {};
    }

    /** Each reader's generation once, every one before the next by rotation, time, device and inode. */
    ghost predicate IsOldestFirst(order: seq<GenerationID>)
      requires Framed()
      reads this, readerSet`rotation
    {
      && (forall g :: g in order <==> g in readers)
      && forall i, j :: 0 <= i < j < |order| ==>
           order[i] in readers && order[j] in readers && Before(EntryOf(order[i]), EntryOf(order[j]))
    }

    static function Order(ordered: seq<GenerationReader>): (order: seq<GenerationID>)
      ensures |order| == |ordered| && forall i :: 0 <= i < |order| ==> order[i] == ordered[i].Generation()
    {
      seq(|ordered|, i requires 0 <= i < |ordered| => ordered[i].Generation())
    }

    lemma ListIsOldestFirst(ordered: seq<GenerationReader>)
      requires Framed() && Lists(ordered)
      requires Sorted(Entries(ordered)) && multiset(Entries(ordered)) == multiset(EntriesOf(readers.Keys))
      ensures IsOldestFirst(Order(ordered))
    {
      hide EntriesOf, Sorted, Entries;
      OrderCovers(ordered);
      SortedSetIsStrict(Entries(ordered), EntriesOf(readers.Keys));
    }

    /** All of these are readers of the registry. */
    ghost predicate Lists(ordered: seq<GenerationReader>)
      reads this
    {
      forall i :: 0 <= i < |ordered| ==>
        ordered[i].Generation() in readers && readers[ordered[i].Generation()] == ordered[i]
    }

    /**
     * The readers from the oldest to the current generation. They are sorted by the
     * order that has only one result, so map iteration order does not matter.
     */
    method OldestFirst() returns (ordered: seq<GenerationReader>)
      requires Valid()
      ensures Lists(ordered) && IsOldestFirst(Order(ordered))
      ensures Sorted(Entries(ordered)) && multiset(Entries(ordered)) == multiset(EntriesOf(readers.Keys))
    {
      hide GenerationReader.Valid;
      var entries := ListEntries();
      var sorted := OrderGenerationsOldestFirst(entries);
      ordered := Resolve(sorted);
      ListIsOldestFirst(ordered);
    }

    /** The readers behind the entries. */
    method Resolve(sorted: seq<Entry>) returns (ordered: seq<GenerationReader>)
      requires Valid() && multiset(sorted) == multiset(EntriesOf(readers.Keys))
      ensures Lists(ordered) && Entries(ordered) == sorted
    {
      hide GenerationReader.Valid;
      ordered := [];
      for i := 0 to |sorted|
        invariant |ordered| == i
        invariant forall k :: 0 <= k < i ==>
                    && sorted[k].generation in readers && ordered[k] == readers[sorted[k].generation]
                    && EntryOf(sorted[k].generation) == sorted[k]
      {
        assert sorted[i] in multiset(sorted);
        assert sorted[i] in multiset(EntriesOf(readers.Keys));
        ordered := ordered + [readers[sorted[i].generation]];
      }
      assert Entries(ordered) == sorted;
    }

    function EntryOf(g: GenerationID): Entry
      requires Framed() && g in readers
      reads this, readerSet`rotation
    {
      Entry(readers[g].rotation, readers[g].report.modified, g)
    }

    ghost function EntriesOf(gs: set<GenerationID>): set<Entry>
      requires Framed() && gs <= readers.Keys
      reads this, readerSet`rotation
    {
      set g | g in gs :: EntryOf(g)
    }

    static ghost function Entries(ordered: seq<GenerationReader>): (entries: seq<Entry>)
      reads (set r | r in ordered)`rotation
      ensures |entries| == |ordered|
      ensures forall i :: 0 <= i < |ordered| ==>
                entries[i] == Entry(ordered[i].rotation, ordered[i].report.modified, ordered[i].Generation())
    {
      if ordered == [] then []
      else
        var last := ordered[|ordered| - 1];
        Entries(ordered[..|ordered| - 1]) + [Entry(last.rotation, last.report.modified, last.Generation())]
    }

    /** One entry per reader, in whatever order the map yields them. */
    method ListEntries() returns (entries: seq<Entry>)
      requires Framed()
      ensures multiset(entries) == multiset(EntriesOf(readers.Keys))
    {
      entries := [];
      var rest := readers.Keys;
      while rest != {}
        invariant rest <= readers.Keys
        invariant multiset(entries) == multiset(EntriesOf(readers.Keys - rest))
        decreases rest
      {
        var g :| g in rest;
        var e := EntryOf(g);
        assert EntriesOf(readers.Keys - (rest - {g})) == EntriesOf(readers.Keys - rest) + {e};
        assert e !in EntriesOf(readers.Keys - rest);
        entries := entries + [e];
        rest := rest - {g};
      }
      assert readers.Keys - rest == readers.Keys;
    }

    /** Every generation of the set is in the list. */
    static ghost predicate CoversAll(gs: set<GenerationID>, ordered: seq<GenerationReader>) {
      forall g :: g in gs ==> exists i :: 0 <= i < |ordered| && ordered[i].Generation() == g
    }

    lemma OrderCovers(ordered: seq<GenerationReader>)
      requires Framed() && multiset(Entries(ordered)) == multiset(EntriesOf(readers.Keys))
      ensures CoversAll(readers.Keys, ordered)
    {
      forall g | g in readers
        ensures exists i :: 0 <= i < |ordered| && ordered[i].Generation() == g
      {
        assert EntryOf(g) in multiset(EntriesOf(readers.Keys));
        assert EntryOf(g) in Entries(ordered);
        var i :| 0 <= i < |ordered| && Entries(ordered)[i] == EntryOf(g);
        assert ordered[i].Generation() == g;
      }
    }

    /**
     * Drains every reader, oldest first, while the writer goes on. On success each
     * reader stands at the last complete-record boundary of what it has read, and if
     * the queue is still empty those that a name leads to have handled everything.
     * The log grows by exactly the records committed, in the order of the readers.
     * The counts leave out what the turn that failed had accepted and read, and
     * nothing else.
     */
    method DrainAll(env: Environment, handler: RecordHandler, mode: RecordMode)
      returns (records: nat, bytes: nat, error: Option<Error>, ghost turns: Turns)
      requires Valid() && env.Valid() && handler.Valid()
      requires Follow(Views(), env.world) && Logged(Views(), handler.log)
      modifies readerSet`lastFingerprint, decoderSet
      modifies env`world, env`schedule, env.incidents
      modifies handler, handler.processor, handler.processor.state
      ensures Valid() && env.Valid() && handler.Valid()
      ensures Follow(Views(), env.world) && Logged(Views(), handler.log)
      ensures Evolved(old(env.world), env.world)
      ensures AllAdvance(old(Views()), Views())
      ensures Extends(old(handler.log), handler.log, mode)
      ensures IsOldestFirst(turns.order) && TurnsOf(handler.log[|old(handler.log)|..], turns, error.Some?)
      ensures records + turns.lost.records == |handler.log| - |old(handler.log)|
      ensures bytes + turns.lost.bytes == TotalRead(Views()) - TotalRead(old(Views()))
      ensures error == None ==>
                && Settled(Views(), env.world, readers.Keys, maxRecordBytes)
                && ReadAll(Views(), old(env.world), readers.Keys)
      ensures Explains(turns.lost, old(Views()), Views(), maxRecordBytes)
      ensures Blames(error, turns.lost)
      ensures Rests(old(env.world), old(env.schedule), env.world, env.schedule)
      ensures StopsDrain(error) && Reported(error, old(env.incidents.log), env.incidents.log)
      ensures error == Some(ErrOsClosed) ==> exists g :: g in readers && !readers[g].report.isOpen
      ensures handler.processor.unseen == old(handler.processor.unseen)
      ensures handler.processor.observed == old(handler.processor.observed)
    {
      hide GenerationReader.Valid, RecordHandler.Valid, Environment.Valid, Valid, Logged, Follow, Settled, ReadAll,
           Evolved, Explains, AllAdvance, Extends, TotalRead, EntriesOf, Sorted, Entries, InTurn, TurnsOf,
           IsOldestFirst, Midway, Views, Framed;
      records, bytes, error := 0, 0, None;
      var ordered := OldestFirst();
      ghost var order := Order(ordered);
      ghost var start := Start(Views(), handler.log, env.world);
      MidwayAtStart(start, mode, order, env.world);
      for i := 0 to |ordered|
        invariant Valid() && env.Valid() && handler.Valid()
        invariant Lists(ordered) && start.log <= handler.log && error == None
        invariant Rests(old(env.world), old(env.schedule), env.world, env.schedule)
        invariant env.incidents.log == old(env.incidents.log)
        invariant Midway(start, mode, order, i, true, handler.log, env.world, records, bytes)
        invariant handler.processor.unseen == old(handler.processor.unseen)
        invariant handler.processor.observed == old(handler.processor.observed)
      {
        ghost var log := handler.log;
        MidwayMeans(start, mode, order, i, true, log, env.world, records, bytes);
        InFrame(ordered[i]);
        var result;
        ghost var lost;
        result, error, lost := TakeTurn(ordered[i], env, handler, mode, start, records, bytes, order, i);
        if error.Some? {
          MidwayMeans(start, mode, order, i + 1, false, handler.log, env.world,
                      records + result.records, bytes + result.bytes);
          TurnFailed(start.log, log, handler.log, order, i, lost);
          turns := Turns(order, i, lost);
          return;
        }
        records := records + result.records;
        bytes := bytes + result.bytes;
      }
      MidwayMeans(start, mode, order, |order|, true, handler.log, env.world, records, bytes);
      TurnsTaken(handler.log[|start.log|..], order);
      turns := Turns(order, |order|, NO_LOSS);
      NothingLost(start.views, Views(), maxRecordBytes);
    }

    /** The watermarks of all readers, oldest first. */
    method Watermarks() returns (marks: seq<Watermark>)
      requires Valid()
      ensures MarksOf(Views(), marks) && IsOldestFirst(Marked(marks))
    {
      hide GenerationReader.Valid, Sorted, EntriesOf, Entries, IsOldestFirst, MarksOf;
      var ordered := OldestFirst();
      marks := [];
      for i := 0 to |ordered|
        invariant |marks| == i
        invariant forall k :: 0 <= k < i ==> marks[k] == ordered[k].GetWatermark()
      {
        marks := marks + [ordered[i].GetWatermark()];
      }
      assert Marked(marks) == Order(ordered);
      MarksAreOf(ordered, marks);
    }

    lemma MarksAreOf(ordered: seq<GenerationReader>, marks: seq<Watermark>)
      requires Valid() && Lists(ordered) && |marks| == |ordered| && IsOldestFirst(Marked(marks))
      requires forall k :: 0 <= k < |ordered| ==> marks[k] == ordered[k].GetWatermark()
      ensures MarksOf(Views(), marks)
    {
      hide IsOldestFirst, NoneTwice;
      MarkedOnce(marks);
      forall k | 0 <= k < |marks|
        ensures marks[k].generation in Views()
                && marks[k] == MarkOf(marks[k].generation, Views()[marks[k].generation])
      {
        assert readers[ordered[k].Generation()] == ordered[k] && ordered[k].Valid();
      }
    }

    /** Every reader is marked, and none twice. */
    lemma MarkedOnce(marks: seq<Watermark>)
      requires Framed() && IsOldestFirst(Marked(marks))
      ensures NoneTwice(marks)
      ensures forall g :: g in Views() ==> exists i :: 0 <= i < |marks| && marks[i].generation == g
    {
      hide Before;
      var order := Marked(marks);
      forall i, j | 0 <= i < j < |marks|
        ensures marks[i].generation != marks[j].generation
      {
        if order[i] == order[j] {
          BeforeIsTotal(EntryOf(order[i]), EntryOf(order[j]));
        }
      }
      forall g | g in Views()
        ensures exists i :: 0 <= i < |marks| && marks[i].generation == g
      {
        assert g in order;
        var i :| 0 <= i < |order| && order[i] == g;
        assert marks[i].generation == g;
      }
    }

    static function Marked(marks: seq<Watermark>): (order: seq<GenerationID>)
      ensures |order| == |marks| && forall i :: 0 <= i < |order| ==> order[i] == marks[i].generation
    {
      seq(|marks|, i requires 0 <= i < |marks| => marks[i].generation)
    }

    ghost function OwnedFiles(): set<ReportFile>
      reads this
    {
      set g | g in readers :: readers[g].report
    }

    /** Closes every descriptor and forgets the readers. */
    method Close()
      requires Valid()
      modifies this`readers, this`isOpen, OwnedFiles()
      ensures Valid() && !isOpen && readers == map[]
      ensures forall g :: g in old(readers) ==> !old(readers)[g].report.isOpen
    {
      hide GenerationReader.Valid, Valid;
      ghost var before := readers;
      while readers != map[]
        invariant Valid()
        invariant forall g :: g in readers ==> g in before && readers[g] == before[g]
        invariant forall g :: g in before && g !in readers ==> !before[g].report.isOpen
        decreases readers.Keys
      {
        var g :| g in readers;
        CloseOne(g, before);
      }
      MarkClosed();
    }

    /** Closes one of the readers that are left. */
    method CloseOne(g: GenerationID, ghost before: map<GenerationID, GenerationReader>)
      requires Valid() && g in readers
      requires forall h :: h in readers ==> h in before && readers[h] == before[h]
      requires forall h :: h in before && h !in readers ==> !before[h].report.isOpen
      modifies this`readers, readers[g].report
      ensures Valid() && readers == old(readers) - {g}
      ensures forall h :: h in readers ==> h in before && readers[h] == before[h]
      ensures forall h :: h in before && h !in readers ==> !before[h].report.isOpen
    {
      hide GenerationReader.Valid;
      readers[g].report.Close();
      readers := readers - {g};
    }

    method MarkClosed()
      requires Valid() && readers == map[]
      modifies this`isOpen
      ensures Valid() && !isOpen
    {
      isOpen := false;
    }
  }

  /** The calls added for the next generation of the order keep the log in turn. */
  lemma TurnTaken(start: seq<Call>, before: seq<Call>, after: seq<Call>, order: seq<GenerationID>, done: nat)
    requires done < |order| && start <= before <= after && InTurn(before[|start|..], order, done)
    requires forall k :: |before| <= k < |after| ==> after[k].generation == order[done]
    ensures InTurn(after[|start|..], order, done + 1)
  {
    hide InTurn;
    InTurnMore(before[|start|..], order, done, after[|before|..]);
    assert before[|start|..] + after[|before|..] == after[|start|..];
  }

  lemma FollowsFile(views: Views, w: World, g: GenerationID)
    requires Follow(views, w) && g in views
    ensures g in w.files && views[g].fed <= w.files[g]
  {
  }

  lemma InReports(discovered: seq<Discovered>)
    ensures forall i :: 0 <= i < |discovered| ==> discovered[i].report in Reports(discovered)
    ensures forall f :: f in Reports(discovered) ==> exists i :: 0 <= i < |discovered| && discovered[i].report == f
  {
    forall i | 0 <= i < |discovered|
      ensures discovered[i].report in Reports(discovered)
    {
      assert discovered[i] in discovered;
    }
  }

  lemma DistinctFrom(discovered: seq<Discovered>, i: nat)
    requires Distinct(discovered) && i < |discovered|
    ensures forall k :: 0 <= k < |discovered| && k != i ==> discovered[k].report != discovered[i].report
  {
  }

  lemma MergeNone(rotations: map<GenerationID, nat>, discovered: seq<Discovered>)
    ensures Merge(rotations, discovered[..0]) == rotations
  {
  }

  lemma MergeNext(rotations: map<GenerationID, nat>, discovered: seq<Discovered>, i: nat)
    requires i < |discovered|
    ensures Merge(rotations, discovered[..i + 1]) == MergeOne(Merge(rotations, discovered[..i]), discovered[i])
  {
    assert discovered[..i + 1][..i] == discovered[..i];
  }
}
