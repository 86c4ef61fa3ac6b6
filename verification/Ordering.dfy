/**
 * The order in which report generations are drained: oldest rotation first, then
 * modification time, device and inode. The order is total, so sorting has exactly
 * one result, and under a rotating writer it is proved to be creation order, also
 * for generations whose names are gone.
 */
module Ordering {
  /** Identifies an opened report across renames. */
  datatype GenerationID = GenerationID(device: nat, inode: nat)

  datatype Entry = Entry(rotation: nat, modified: int, generation: GenerationID)

  /** The comparator of the sort. */
  predicate Before(a: Entry, b: Entry) {
    if a.rotation != b.rotation then a.rotation > b.rotation
    else if a.modified != b.modified then a.modified < b.modified
    else if a.generation.device != b.generation.device then a.generation.device < b.generation.device
    else a.generation.inode < b.generation.inode
  }

  ghost predicate Sorted(s: seq<Entry>) {
    forall i, j :: 0 <= i < j < |s| ==> !Before(s[j], s[i])
  }

  /** Equal only to itself: the comparator separates any two entries. */
  lemma BeforeIsTotal(a: Entry, b: Entry)
    ensures !Before(a, b) && !Before(b, a) <==> a == b
    ensures !(Before(a, b) && Before(b, a))
  {
  }

  lemma SortedAppend(s: seq<Entry>, last: Entry)
    requires Sorted(s)
    requires forall x :: x in multiset(s) ==> !Before(last, x)
    ensures Sorted(s + [last])
  {
    assert forall i :: 0 <= i < |s| ==> s[i] in multiset(s);
  }

  lemma AppendLast(s: seq<Entry>, e: Entry)
    requires s != [] && Sorted(s) && !Before(e, s[|s| - 1])
    ensures Sorted(s + [e])
  {
    var last := s[|s| - 1];
    forall i | 0 <= i < |s|
      ensures !Before(e, s[i])
    {
      assert i < |s| - 1 ==> !Before(last, s[i]);
    }
  }

  /** Puts an entry behind all entries of a sorted list that it does not precede. */
  function Insert(s: seq<Entry>, e: Entry): (r: seq<Entry>)
    requires Sorted(s)
    ensures Sorted(r) && multiset(r) == multiset(s) + multiset{e}
  {
    if s == [] then [e]
    else
      var last := s[|s| - 1];
      var front := s[..|s| - 1];
      assert s == front + [last];
      if Before(e, last) then
        var r := Insert(front, e);
        SortedAppend(r, last);
        r + [last]
      else
        AppendLast(s, e);
        s + [e]
  }

  /** A sorted copy. Whatever sort is used, the result is this one. */
  method OrderGenerationsOldestFirst(generations: seq<Entry>) returns (ordered: seq<Entry>)
    ensures Sorted(ordered) && multiset(ordered) == multiset(generations)
  {
    ordered := [];
    for i := 0 to |generations|
      invariant Sorted(ordered) && multiset(ordered) == multiset(generations[..i])
    {
      assert generations[..i + 1] == generations[..i] + [generations[i]];
      ordered := Insert(ordered, generations[i]);
    }
    assert generations[..|generations|] == generations;
  }

  /** What comes first in a sorted list is settled by the entries alone. */
  lemma SameFirst(a: seq<Entry>, b: seq<Entry>)
    requires Sorted(a) && Sorted(b) && multiset(a) == multiset(b) && a != [] && b != []
    ensures a[0] == b[0]
  {
    assert a[0] in multiset(b) && b[0] in multiset(a);
    BeforeIsTotal(a[0], b[0]);
  }

  lemma WithoutFirst(s: seq<Entry>)
    requires Sorted(s) && s != []
    ensures Sorted(s[1..]) && multiset(s[1..]) == multiset(s) - multiset{s[0]}
  {
    assert s == [s[0]] + s[1..];
  }

  /** Sorting has only one result, whatever order the entries were listed in. */
  lemma {:induction false} SortedIsUnique(a: seq<Entry>, b: seq<Entry>)
    requires Sorted(a) && Sorted(b) && multiset(a) == multiset(b)
    ensures a == b
  {
    hide Sorted, Before;
    assert |a| == |multiset(a)| == |multiset(b)| == |b|;
    if a != [] {
      SameFirst(a, b);
      WithoutFirst(a);
      WithoutFirst(b);
      SortedIsUnique(a[1..], b[1..]);
      assert a == [a[0]] + a[1..] && b == [b[0]] + b[1..];
    }
  }

  /** Every entry strictly before the next. */
  ghost predicate Strict(s: seq<Entry>) {
    forall i, j :: 0 <= i < j < |s| ==> Before(s[i], s[j])
  }

  lemma SeenTwice(s: seq<Entry>, i: nat, j: nat)
    requires i < j < |s|
    ensures s[i] == s[j] ==> multiset(s)[s[i]] >= 2
  {
    assert s == s[..j] + s[j..] && s[i] in s[..j] && s[j] in s[j..];
    assert multiset(s) == multiset(s[..j]) + multiset(s[j..]);
  }

  /** Sorting different entries leaves no ties. */
  lemma {:induction false} SortedSetIsStrict(s: seq<Entry>, entries: set<Entry>)
    requires Sorted(s) && multiset(s) == multiset(entries)
    ensures Strict(s)
  {
    forall i, j | 0 <= i < j < |s|
      ensures Before(s[i], s[j])
    {
      SeenTwice(s, i, j);
      BeforeIsTotal(s[i], s[j]);
    }
  }

  lemma StrictRest(s: seq<Entry>)
    requires Strict(s) && s != []
    ensures Strict(s[1..]) && forall e :: e in s[1..] <==> e in s && e != s[0]
  {
    assert s == [s[0]] + s[1..];
    forall e | e in s[1..]
      ensures e != s[0]
    {
      var k :| 0 <= k < |s| - 1 && s[1..][k] == e;
      assert Before(s[0], s[k + 1]);
      BeforeIsTotal(s[0], s[k + 1]);
    }
  }

  /** Strict lists of the same entries are the same list. */
  lemma {:induction false} StrictIsUnique(a: seq<Entry>, b: seq<Entry>)
    requires Strict(a) && Strict(b) && forall e :: e in a <==> e in b
    ensures a == b
  {
    assert a != [] ==> a[0] in a && a[0] in b;
    assert b != [] ==> b[0] in b && b[0] in a;
    if a != [] {
      BeforeIsTotal(a[0], b[0]);
      StrictRest(a);
      StrictRest(b);
      StrictIsUnique(a[1..], b[1..]);
      assert a == [a[0]] + a[1..] && b == [b[0]] + b[1..];
    }
  }

  // ---- Creation order under rotation ----

  /** Ten report names: the current one and nine rotated ones. */
  const LAST_SLOT: nat := 9

  /**
   * Rotation positions kept for generations numbered in creation order. A scan
   * that finds n generations created sees the last ten of them under their names;
   * the stored position of a generation only grows, and only when it is seen.
   */
  function Scan(rotations: map<nat, nat>, n: nat): map<nat, nat> {
    map g | g in rotations.Keys + Named(n) ::
      if g !in Named(n) then rotations[g]
      else if g in rotations && rotations[g] > n - 1 - g then rotations[g]
      else n - 1 - g
  }

  /** The generations that still have a name when n have been created. */
  function Named(n: nat): (names: set<nat>)
    ensures forall h :: h in names <==> Oldest(n) <= h < n
  {
    Range(Oldest(n), n)
  }

  function Range(a: nat, b: nat): (r: set<nat>)
    ensures forall h :: h in r <==> a <= h < b
    decreases b - a
  {
    if a < b then {a} + Range(a + 1, b) else {}
  }

  /** The oldest of n generations that still has a name. */
  function Oldest(n: nat): nat {
    if n <= LAST_SLOT + 1 then 0 else n - LAST_SLOT - 1
  }

  /** Scans one after the other, each with the number of generations created by then. */
  function ScanAll(counts: seq<nat>): map<nat, nat> {
    if counts == [] then map[] else Scan(ScanAll(counts[..|counts| - 1]), counts[|counts| - 1])
  }

  /** At most one rotation from each scan to the next. */
  ghost predicate Gradual(counts: seq<nat>) {
    forall i :: 0 < i < |counts| ==> counts[i - 1] <= counts[i] <= counts[i - 1] + 1
  }

  function Min(a: nat, b: nat): nat {
    if a < b then a else b
  }

  /** Every generation since the first scan is known; evicted ones keep the last position. */
  ghost predicate Tracked(rotations: map<nat, nat>, oldest: nat, n: nat) {
    && (forall g :: g in rotations <==> oldest <= g < n)
    && (forall g :: g in rotations ==> rotations[g] == Min(LAST_SLOT, n - 1 - g))
  }

  /** A generation as the registry lists it: `modified` gives the time seen first. */
  function EntryOf(rotations: map<nat, nat>, modified: nat -> int, id: nat -> GenerationID, g: nat): Entry
    requires g in rotations
  {
    Entry(rotations[g], modified(g), id(g))
  }

  /** Draining oldest first drains in creation order. */
  ghost predicate InCreationOrder(rotations: map<nat, nat>, modified: nat -> int, id: nat -> GenerationID) {
    forall g, h :: g in rotations && h in rotations && g < h ==>
      Before(EntryOf(rotations, modified, id, g), EntryOf(rotations, modified, id, h))
  }

  /** Later generations have later modification times. */
  ghost predicate LaterIsNewer(rotations: map<nat, nat>, modified: nat -> int) {
    forall g, h :: g in rotations && h in rotations && g < h ==> modified(g) < modified(h)
  }

  /** Tracked generations are in creation order. */
  lemma TrackedIsOrdered(rotations: map<nat, nat>, oldest: nat, n: nat, modified: nat -> int, id: nat -> GenerationID)
    requires Tracked(rotations, oldest, n) && LaterIsNewer(rotations, modified)
    ensures InCreationOrder(rotations, modified, id)
  {
  }

  /** A scan that comes before the second rotation keeps every generation tracked. */
  lemma {:induction false} ScanTracks(rotations: map<nat, nat>, oldest: nat, n: nat, later: nat)
    requires Tracked(rotations, oldest, n) && n <= later <= n + 1 && oldest <= Oldest(later)
    ensures Tracked(Scan(rotations, later), oldest, later)
  {
  }

  lemma {:induction false} ScansTrack(counts: seq<nat>)
    requires counts != [] && Gradual(counts)
    ensures Tracked(ScanAll(counts), Oldest(counts[0]), counts[|counts| - 1])
    ensures counts[0] <= counts[|counts| - 1]
  {
    hide Scan, Tracked;
    var before, last := counts[..|counts| - 1], counts[|counts| - 1];
    if before == [] {
      FirstScanTracks(last);
    } else {
      assert forall i :: 0 <= i < |before| ==> before[i] == counts[i];
      ScansTrack(before);
      ScanTracks(ScanAll(before), Oldest(counts[0]), counts[|counts| - 2], last);
    }
  }

  lemma FirstScanTracks(n: nat)
    ensures Tracked(Scan(map[], n), Oldest(n), n)
  {
  }

  /**
   * Over any number of rotations, as long as every scan comes before the second
   * rotation after the last one, all generations since the first scan, the evicted
   * ones included, are listed in creation order.
   */
  lemma {:induction false} CreationOrderSurvivesEviction(counts: seq<nat>, modified: nat -> int,
                                                         id: nat -> GenerationID)
    requires counts != [] && Gradual(counts) && LaterIsNewer(ScanAll(counts), modified)
    ensures InCreationOrder(ScanAll(counts), modified, id)
    ensures forall g :: g in ScanAll(counts) <==> Oldest(counts[0]) <= g < counts[|counts| - 1]
  {
    hide Scan, ScanAll, InCreationOrder;
    ScansTrack(counts);
    TrackedIsOrdered(ScanAll(counts), Oldest(counts[0]), counts[|counts| - 1], modified, id);
  }

  /**
   * Exactly how late a scan may come: after `missed` rotations since a scan that
   * left everything tracked, creation order survives if and only if at most one
   * rotation was missed or no known generation has lost its name.
   */
  lemma {:induction false} LateScanKeepsOrder(rotations: map<nat, nat>, oldest: nat, n: nat, missed: nat,
                                              modified: nat -> int, id: nat -> GenerationID)
    requires oldest < n && Tracked(rotations, oldest, n) && LaterIsNewer(Scan(rotations, n + missed), modified)
    ensures InCreationOrder(Scan(rotations, n + missed), modified, id)
       <==> missed <= 1 || n + missed <= oldest + LAST_SLOT + 1
  {
    var later := Scan(rotations, n + missed);
    if missed >= 2 && n + missed > oldest + LAST_SLOT + 1 {
      var first := n + missed - LAST_SLOT - 1;
      var g := if first <= n then first - 1 else n - 1;
      assert g in later && first in later;
      assert later[g] < later[first];
      assert !Before(EntryOf(later, modified, id, g), EntryOf(later, modified, id, first));
    }
  }

  /**
   * The rotations stored after a scan that a rotation cuts through: it has looked at the
   * last name before, when n generations had been created, and at the others after, when
   * there is one more. The generation that moves to the last name meanwhile is missed.
   */
  function CutScan(rotations: map<nat, nat>, n: nat): map<nat, nat>
    requires n > LAST_SLOT
  {
    map g | g in rotations.Keys + (Range(n - LAST_SLOT - 1, n + 1) - {n - LAST_SLOT}) ::
      var seen := if g > n - LAST_SLOT then n - g else if g == n - LAST_SLOT - 1 then LAST_SLOT else 0;
      if g in rotations && rotations[g] > seen then rotations[g] else seen
  }

  /**
   * A scan that is cut like this may break creation order for good: the generation that
   * was missed loses its name at the next rotation, keeps too low a position, and comes
   * behind the next one.
   */
  lemma {:induction false} CutScanBreaksOrder(rotations: map<nat, nat>, oldest: nat, n: nat, modified: nat -> int,
                                              id: nat -> GenerationID)
    requires Tracked(rotations, oldest, n) && oldest + LAST_SLOT + 1 <= n
    ensures !InCreationOrder(Scan(CutScan(rotations, n), n + 2), modified, id)
  {
    var later, g := Scan(CutScan(rotations, n), n + 2), n - LAST_SLOT;
    assert g in later && g + 1 in later && later[g] == LAST_SLOT - 1 && later[g + 1] == LAST_SLOT;
    assert !Before(EntryOf(later, modified, id, g), EntryOf(later, modified, id, g + 1));
  }
}
