/**
 * A writer that appends only to its newest report and shifts the others by one name
 * at every rotation: what its reports look like at any time, and what the registry's
 * rotations and modification times are good for. From them the readers are drained
 * in creation order, the generations that have lost their names included.
 */
module CreationOrder {
  import opened Events
  import opened Ordering
  import opened Worlds
  import opened Readers
  import opened Registries

  /** Generations are numbered in creation order; different ones have different IDs. */
  ghost predicate Injective(id: nat -> GenerationID) {
    forall g: nat, h: nat :: id(g) == id(h) ==> g == h
  }

  /** The names when n generations have been created: slot k leads to the k-th from the newest. */
  ghost predicate Rotated(names: map<nat, GenerationID>, n: nat, id: nat -> GenerationID) {
    forall slot: nat :: slot <= LAST_SLOT ==>
      && (slot in names <==> slot < n)
      && (slot in names ==> names[slot] == id(n - 1 - slot))
  }

  /** The registry's rotations are those of the numbered generations. */
  ghost predicate Stored(rotations: map<GenerationID, nat>, numbered: map<nat, nat>, id: nat -> GenerationID) {
    && (forall x :: x in rotations ==> exists g :: g in numbered && id(g) == x)
    && (forall g :: g in numbered ==> id(g) in rotations && rotations[id(g)] == numbered[g])
  }

  lemma CoveredUnder(discovered: seq<Discovered>, d: Discovered, names: map<nat, GenerationID>)
    requires Covers(discovered, names, names.Keys) && d in discovered
    ensures d.rotation in names && d.rotation <= LAST_SLOT && names[d.rotation] == d.Generation()
  {
    hide FindsAll;
    var i :| 0 <= i < |discovered| && discovered[i] == d;
  }

  /** Under rotated names, a generation is only ever discovered at its own position. */
  lemma DiscoveredAt(discovered: seq<Discovered>, d: Discovered, names: map<nat, GenerationID>, n: nat,
                     id: nat -> GenerationID)
    requires Rotated(names, n, id) && Covers(discovered, names, names.Keys) && d in discovered
    ensures d.rotation < n && d.rotation <= LAST_SLOT && d.Generation() == id(n - 1 - d.rotation)
    ensures n - 1 - d.rotation in Named(n)
  {
    hide Named, Covers;
    CoveredUnder(discovered, d, names);
  }

  /** Every generation that has a name is discovered. */
  lemma NamedIsDiscovered(discovered: seq<Discovered>, names: map<nat, GenerationID>, n: nat,
                          id: nat -> GenerationID, g: nat) returns (d: Discovered)
    requires Rotated(names, n, id) && Covers(discovered, names, names.Keys) && g in Named(n)
    ensures d in discovered && d.Generation() == id(g)
  {
    hide Named, FindsOnly;
    var slot := n - 1 - g;
    assert slot in names && names[slot] == id(g);
    var i :| 0 <= i < |discovered| && discovered[i].Generation() == names[slot];
    d := discovered[i];
  }

  /** Merging a scan of one moment is the step that the numbered rotations take. */
  lemma {:induction false} MergeIsScan(rotations: map<GenerationID, nat>, numbered: map<nat, nat>,
                                       discovered: seq<Discovered>, names: map<nat, GenerationID>, n: nat,
                                       id: nat -> GenerationID)
    requires Injective(id) && Stored(rotations, numbered, id)
    requires Rotated(names, n, id) && Covers(discovered, names, names.Keys)
    ensures Stored(Merge(rotations, discovered), Scan(numbered, n), id)
  {
    hide Merge, Covers, Rotated;
    var after, later := Merge(rotations, discovered), Scan(numbered, n);
    forall x | x in after
      ensures exists g :: g in later && id(g) == x
    {
      MergeIsHighest(rotations, discovered, x);
      if x in rotations {
        var g :| g in numbered && id(g) == x;
        assert g in later;
      } else {
        var d :| d in discovered && d.Generation() == x;
        DiscoveredAt(discovered, d, names, n, id);
        assert n - 1 - d.rotation in later;
      }
    }
    forall g | g in later
      ensures id(g) in after && after[id(g)] == later[g]
    {
      MergeIsHighest(rotations, discovered, id(g));
      forall d | d in discovered && d.Generation() == id(g)
        ensures g in Named(n) && d.rotation == n - 1 - g
      {
        DiscoveredAt(discovered, d, names, n, id);
      }
      if g in Named(n) {
        var d := NamedIsDiscovered(discovered, names, n, id, g);
      }
      if id(g) in rotations {
        var h :| h in numbered && id(h) == id(g);
      }
    }
  }

  // ---- The list of readers ----

  /** The generations a to b, in creation order. */
  function Ids(id: nat -> GenerationID, a: nat, b: nat): (ids: seq<GenerationID>)
    requires a <= b
    ensures |ids| == b - a && forall k :: 0 <= k < b - a ==> ids[k] == id(a + k)
  {
    seq(b - a, k requires 0 <= k => id(a + k))
  }

  /** When the files of the readers had been written when they were opened. */
  function TimesOf(readers: map<GenerationID, GenerationReader>, id: nat -> GenerationID): nat -> int {
    (g: nat) => if id(g) in readers then readers[id(g)].report.modified else 0
  }

  /** The entries of a list of generations. */
  function EntriesOf(entries: map<GenerationID, Entry>, order: seq<GenerationID>): (s: seq<Entry>)
    requires forall x :: x in order ==> x in entries
    ensures |s| == |order| && forall i :: 0 <= i < |s| ==> s[i] == entries[order[i]]
  {
    seq(|order|, i requires 0 <= i < |order| => entries[order[i]])
  }

  /** Two orders of the same generations that are both strict are the same. */
  lemma SameOrder(entries: map<GenerationID, Entry>, a: seq<GenerationID>, b: seq<GenerationID>)
    requires forall x :: x in entries ==> entries[x].generation == x
    requires (forall x :: x in a <==> x in entries) && (forall x :: x in b <==> x in entries)
    requires Strict(EntriesOf(entries, a)) && Strict(EntriesOf(entries, b))
    ensures a == b
  {
    hide Strict, EntriesOf;
    var left, right := EntriesOf(entries, a), EntriesOf(entries, b);
    forall e
      ensures e in left <==> e in right
    {
      if e in left {
        var i :| 0 <= i < |left| && left[i] == e;
        assert a[i] in a && a[i] in b;
        var k :| 0 <= k < |b| && b[k] == a[i];
        assert right[k] == e;
      }
      if e in right {
        var i :| 0 <= i < |right| && right[i] == e;
        assert b[i] in b && b[i] in a;
        var k :| 0 <= k < |a| && a[k] == b[i];
        assert left[k] == e;
      }
    }
    StrictIsUnique(left, right);
    forall i | 0 <= i < |a|
      ensures a[i] == b[i]
    {
      assert left[i] == right[i];
    }
  }

  /**
   * With tracked rotations and rising times, the order in which readers are drained
   * is exactly all known generations, each once, in creation order.
   */
  lemma {:induction false} OldestFirstIsCreationOrder(registry: GenerationRegistry, order: seq<GenerationID>,
      numbered: map<nat, nat>, id: nat -> GenerationID, a: nat, b: nat)
    requires registry.Framed() && registry.IsOldestFirst(order) && a <= b
    requires Stored(registry.Rotations(), numbered, id) && Tracked(numbered, a, b)
    requires LaterIsNewer(numbered, TimesOf(registry.readers, id))
    ensures order == Ids(id, a, b)
  {
    hide Tracked, Stored, Before, LaterIsNewer, InCreationOrder, Strict, EntriesOf, GenerationRegistry.IsOldestFirst;
    TrackedIsOrdered(numbered, a, b, TimesOf(registry.readers, id), id);
    KnownReaders(registry, numbered, id, a, b);
    OrderIsStrict(registry, order);
    IdsAreStrict(registry, numbered, id, a, b);
    SameOrder(Entries(registry), order, Ids(id, a, b));
  }

  ghost function Entries(registry: GenerationRegistry): map<GenerationID, Entry>
    requires registry.Framed()
    reads registry, registry.readerSet`rotation
  {
    map x | x in registry.readers :: registry.EntryOf(x)
  }

  lemma OrderIsStrict(registry: GenerationRegistry, order: seq<GenerationID>)
    requires registry.Framed() && registry.IsOldestFirst(order)
    ensures forall x :: x in order <==> x in Entries(registry)
    ensures Strict(EntriesOf(Entries(registry), order))
  {
    hide Before;
  }

  lemma IdsAreReaders(registry: GenerationRegistry, id: nat -> GenerationID, a: nat, b: nat)
    requires registry.Framed() && a <= b
    requires forall g :: a <= g < b ==> id(g) in registry.readers
    requires forall x :: x in registry.readers ==> exists g :: a <= g < b && id(g) == x
    ensures forall x :: x in Ids(id, a, b) <==> x in Entries(registry)
  {
    var ids := Ids(id, a, b);
    forall x
      ensures x in ids <==> x in Entries(registry)
    {
      if x in registry.readers {
        var g :| a <= g < b && id(g) == x;
        assert ids[g - a] == x;
      }
    }
  }

  lemma IdsAreStrict(registry: GenerationRegistry, numbered: map<nat, nat>, id: nat -> GenerationID, a: nat, b: nat)
    requires registry.Framed() && a <= b && forall g :: g in numbered <==> a <= g < b
    requires forall g :: a <= g < b ==> id(g) in registry.readers && registry.readers[id(g)].rotation == numbered[g]
    requires forall x :: x in registry.readers ==> exists g :: a <= g < b && id(g) == x
    requires InCreationOrder(numbered, TimesOf(registry.readers, id), id)
    ensures forall x :: x in Ids(id, a, b) <==> x in Entries(registry)
    ensures Strict(EntriesOf(Entries(registry), Ids(id, a, b)))
  {
    hide Before;
    var entries, ids, times := Entries(registry), Ids(id, a, b), TimesOf(registry.readers, id);
    IdsAreReaders(registry, id, a, b);
    forall i, j | 0 <= i < j < |ids|
      ensures Before(EntriesOf(entries, ids)[i], EntriesOf(entries, ids)[j])
    {
      assert entries[ids[i]] == EntryOf(numbered, times, id, a + i);
      assert entries[ids[j]] == EntryOf(numbered, times, id, a + j);
    }
  }

  /** The readers are those of the numbered generations, with their rotations. */
  lemma KnownReaders(registry: GenerationRegistry, numbered: map<nat, nat>, id: nat -> GenerationID, a: nat, b: nat)
    requires registry.Framed() && Stored(registry.Rotations(), numbered, id) && Tracked(numbered, a, b)
    ensures forall g :: g in numbered <==> a <= g < b
    ensures forall g :: a <= g < b ==> id(g) in registry.readers && registry.readers[id(g)].rotation == numbered[g]
    ensures forall x :: x in registry.readers ==> exists g :: a <= g < b && id(g) == x
  {
    forall g | a <= g < b
      ensures id(g) in registry.readers && registry.readers[id(g)].rotation == numbered[g]
    {
      assert id(g) in registry.Rotations();
    }
    forall x | x in registry.readers
      ensures exists g :: a <= g < b && id(g) == x
    {
      assert x in registry.Rotations();
    }
  }

  // ---- The writer ----

  /** When a generation was created, and a time by which its last bytes are written. */
  datatype Span = Span(birth: int, until: int)

  /** Each generation is written to in its own time, before the next one is created. */
  predicate Apart(spans: seq<Span>) {
    && (forall g :: 0 <= g < |spans| ==> spans[g].birth <= spans[g].until)
    && (forall g, h :: 0 <= g < h < |spans| ==> spans[g].until < spans[h].birth)
  }

  /** The reports of such a writer: as many generations as spans, under rotated names. */
  ghost predicate Written(w: World, spans: seq<Span>, id: nat -> GenerationID) {
    && Apart(spans) && Rotated(w.names, |spans|, id)
    && forall g :: 0 <= g < |spans| ==> InSpan(w, id(g), spans[g])
  }

  ghost predicate InSpan(w: World, g: GenerationID, span: Span) {
    g in w.modified && span.birth <= w.modified[g] <= span.until
  }

  /** A step that only appends to the newest generation, in its time, or disturbs the queue. */
  predicate OnlyAppends(step: WriterStep, newest: GenerationID, span: Span) {
    match step
    case Append(g, _, time) => g == newest && span.birth <= time <= span.until
    case Disturb(event) => event.Valid()
    case _ => false
  }

  predicate AllAppend(steps: seq<WriterStep>, newest: GenerationID, span: Span) {
    forall step :: step in steps ==> OnlyAppends(step, newest, span)
  }

  /** The files of all generations but the newest are as they were. */
  ghost predicate Frozen(before: World, after: World, n: nat, id: nat -> GenerationID) {
    forall g: nat :: g + 1 < n ==>
      id(g) in before.files && id(g) in after.files && after.files[id(g)] == before.files[id(g)]
  }

  lemma AppendKeepsWritten(start: World, w: World, step: WriterStep, limit: nat, spans: seq<Span>,
                           id: nat -> GenerationID)
    requires Injective(id) && spans != [] && w.Valid() && Written(w, spans, id) && Frozen(start, w, |spans|, id)
    requires OnlyAppends(step, id(|spans| - 1), spans[|spans| - 1])
    ensures Written(Mutate(w, step, limit), spans, id) && Frozen(start, Mutate(w, step, limit), |spans|, id)
  {
    hide Rotated, Apart;
  }

  /** What the writer promises between two rotations. */
  ghost predicate Keeps(start: World, w: World, steps: seq<WriterStep>, spans: seq<Span>, id: nat -> GenerationID) {
    && spans != [] && Written(w, spans, id) && Frozen(start, w, |spans|, id)
    && AllAppend(steps, id(|spans| - 1), spans[|spans| - 1])
  }

  ghost function WriterPromise(start: World, spans: seq<Span>, id: nat -> GenerationID): Promise {
    (w, steps) => Keeps(start, w, steps, spans, id)
  }

  lemma WriterPromiseLasts(start: World, spans: seq<Span>, id: nat -> GenerationID, limit: nat)
    requires Injective(id)
    ensures Lasting(WriterPromise(start, spans, id), limit)
  {
    hide Rotated, Apart, Mutate;
    var promise := WriterPromise(start, spans, id);
    forall w: World, steps: seq<WriterStep> | w.Valid() && promise(w, steps) && steps != []
      ensures promise(Mutate(w, steps[0], limit), steps[1..])
    {
      AppendKeepsWritten(start, w, steps[0], limit, spans, id);
    }
    forall w: World, steps: seq<WriterStep>, queue: seq<Event> | promise(w, steps)
      ensures promise(w.(queue := queue), steps)
    {
    }
  }

  // ---- Rotations ----

  /** Drops the last slot and shifts the slots from k on by one, the last first. */
  function Shift(k: nat): seq<WriterStep>
    requires k <= LAST_SLOT
    decreases LAST_SLOT - k
  {
    if k == LAST_SLOT then [Unlink(LAST_SLOT)] else Shift(k + 1) + [Rename(k, k + 1)]
  }

  /** The steps of one rotation: the oldest name goes, the others move, a new report is created. */
  function Rotation(g: GenerationID, time: int): seq<WriterStep> {
    Shift(0) + [Create(0, g, time)]
  }

  /** The names from slot k on have moved by one; the others are as they were. */
  ghost predicate ShiftedFrom(before: World, after: World, k: nat) {
    && after.files == before.files && after.modified == before.modified && k !in after.names
    && (forall slot :: slot < k ==>
          (slot in after.names <==> slot in before.names)
          && (slot in before.names ==> after.names[slot] == before.names[slot]))
    && (forall slot :: k < slot <= LAST_SLOT ==>
          (slot in after.names <==> slot - 1 in before.names)
          && (slot - 1 in before.names ==> after.names[slot] == before.names[slot - 1]))
  }

  lemma ShiftOnce(before: World, w: World, k: nat, limit: nat)
    requires k < LAST_SLOT && ShiftedFrom(before, w, k + 1)
    ensures ShiftedFrom(before, Mutate(w, Rename(k, k + 1), limit), k)
  {
  }

  lemma {:induction false} ShiftMoves(w: World, k: nat, limit: nat)
    requires k <= LAST_SLOT
    ensures ShiftedFrom(w, MutateAll(w, Shift(k), limit), k)
    decreases LAST_SLOT - k
  {
    hide ShiftedFrom, Mutate;
    if k == LAST_SLOT {
      UnlinkDrops(w, limit);
      assert Shift(k)[..0] == [];
    } else {
      ShiftMoves(w, k + 1, limit);
      ShiftOnce(w, MutateAll(w, Shift(k + 1), limit), k, limit);
      assert Shift(k)[..|Shift(k)| - 1] == Shift(k + 1);
    }
  }

  lemma UnlinkDrops(w: World, limit: nat)
    ensures ShiftedFrom(w, Mutate(w, Unlink(LAST_SLOT), limit), LAST_SLOT)
  {
  }

  /** A rotation yields the reports of one generation more, and changes no file. */
  lemma {:induction false} RotationKeepsWritten(w: World, spans: seq<Span>, id: nat -> GenerationID, span: Span,
                                                limit: nat)
    requires Injective(id) && w.Valid() && Written(w, spans, id) && Apart(spans + [span])
    requires id(|spans|) !in w.files
    ensures var after := MutateAll(w, Rotation(id(|spans|), span.birth), limit);
            && Written(after, spans + [span], id)
            && forall g :: g in w.files ==> g in after.files && after.files[g] == w.files[g]
  {
    var shifted := MutateAll(w, Shift(0), limit);
    ShiftMoves(w, 0, limit);
    var steps := Rotation(id(|spans|), span.birth);
    assert steps[..|steps| - 1] == Shift(0);
    var after, n := MutateAll(w, steps, limit), |spans|;
    assert after == Mutate(shifted, Create(0, id(n), span.birth), limit);
    forall slot: nat | slot <= LAST_SLOT
      ensures (slot in after.names <==> slot < n + 1) && (slot in after.names ==> after.names[slot] == id(n - slot))
    {
      if 0 < slot {
        assert slot in after.names <==> slot - 1 in w.names;
      }
    }
    forall g | 0 <= g < n + 1
      ensures InSpan(after, id(g), (spans + [span])[g])
    {
      assert (spans + [span])[n] == span && (g < n ==> InSpan(w, id(g), spans[g]));
    }
  }
}
