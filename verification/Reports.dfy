/**
 * Reports as the monitor writes them: objects between brackets, separated by
 * commas, with whitespace anywhere between tokens. Cutting such a report at any
 * byte and parsing what is there gives exactly the objects whose delimiter has
 * arrived, with their offsets, and never an error.
 */
module Reports {
  import opened Bytes
  import opened JsonGrammar
  import opened JsonScanner
  import opened Framing

  /** An object text with the whitespace around it. */
  datatype Item = Item(before: seq<Byte>, text: seq<Byte>, after: seq<Byte>) {
    ghost predicate Valid(max: nat) {
      AllSpace(before, 0) && AllSpace(after, 0) && IsObject(text) && |text| <= max
    }

    /** The item without its delimiter. */
    function Bytes(): seq<Byte> {
      before + text + after
    }

    function Size(): nat {
      |before| + |text| + |after| + 1
    }

    function At(base: nat, closes: bool): Record {
      Record(text, base + |before|, base + Size(), Sha256(text), closes)
    }
  }

  ghost predicate ValidItems(items: seq<Item>, max: nat) {
    forall i :: 0 <= i < |items| ==> items[i].Valid(max)
  }

  /** The last object of a closed report is followed by the bracket, the others by a comma. */
  predicate Closes(items: seq<Item>, closed: bool) {
    closed && |items| == 1
  }

  function Delimiter(closes: bool): Byte {
    if closes then CLOSE_BRACKET else COMMA
  }

  /** The items one after the other, each with its delimiter. */
  function Body(items: seq<Item>, closed: bool): seq<Byte> {
    if items == [] then []
    else items[0].Bytes() + [Delimiter(Closes(items, closed))] + Body(items[1..], closed)
  }

  /** The records that a reader of Body at offset base must deliver. */
  function Expected(items: seq<Item>, base: nat, closed: bool): seq<Record> {
    if items == [] then []
    else [items[0].At(base, Closes(items, closed))] + Expected(items[1..], base + items[0].Size(), closed)
  }

  /** Those whose delimiter lies among the first n bytes of the file. */
  function Arrived(records: seq<Record>, n: nat): seq<Record> {
    if records == [] || records[0].end > n then [] else [records[0]] + Arrived(records[1..], n)
  }

  // ---- One item ----

  lemma SpacesThen(spaces: seq<Byte>, s: seq<Byte>)
    requires AllSpace(spaces, 0)
    requires s != [] ==> !IsSpace(s[0])
    ensures SkipSpaces(spaces + s, 0) == |spaces|
  {
    SkipSpacesUnique(spaces + s, 0, |spaces|);
  }

  /**
   * The size limit is exact: however much of an object has arrived, it is
   * refused as too large if and only if more than max bytes of it are there.
   */
  lemma {:induction false} SizeLimitIsExact(before: seq<Byte>, text: seq<Byte>, n: nat, rest: seq<Byte>,
                                            base: nat, seen: bool, max: nat)
    requires AllSpace(before, 0) && IsObject(text) && n <= |text|
    requires n < |text| ==> rest == []
    ensures FirstFrame(before + text[..n] + rest, base, seen, max) == Stop(TooLarge) <==> n > max
    ensures n < |text| && n <= max ==> FirstFrame(before + text[..n] + rest, base, seen, max) == Stop(NeedMore)
  {
    var s := before + text[..n] + rest;
    if n == 0 {
      assert s == before + [];
      SpacesThen(before, []);
    } else {
      assert s == before + (text[..n] + rest);
      SpacesThen(before, text[..n] + rest);
      RunShifts(before, text[..n] + rest, 0, BeginValue, Empty);
      if n < |text| {
        assert text[..n] + rest == text[..n];
        PrefixIsIncomplete(text, n);
      } else {
        assert text[..n] == text;
        ScanIsStable(text, rest, 0);
      }
    }
  }

  /** An item without its delimiter, or any part of it, is not a record yet. */
  lemma {:induction false} CutItemWaits(item: Item, n: nat, base: nat, seen: bool, max: nat)
    requires item.Valid(max) && n <= |item.Bytes()|
    ensures FirstFrame(item.Bytes()[..n], base, seen, max) == Stop(NeedMore)
  {
    var s := item.Bytes()[..n];
    var b, t := |item.before|, |item.text|;
    if n <= b {
      assert s == item.before[..n] + [];
      SpacesThen(item.before[..n], []);
    } else if n < b + t {
      assert s == item.before + item.text[..n - b] + [];
      SizeLimitIsExact(item.before, item.text, n - b, [], base, seen, max);
    } else {
      assert s == item.before + (item.text + item.after[..n - b - t]);
      FrameOfItem(item, item.after[..n - b - t], base, seen, max);
    }
  }

  /** What the framer finds at an item, in terms of what follows the object text. */
  lemma {:induction false} FrameOfItem(item: Item, follow: seq<Byte>, base: nat, seen: bool, max: nat)
    requires item.Valid(max)
    ensures var s := item.before + (item.text + follow);
            var start := |item.before|;
            && SkipSpaces(s, 0) == start && s[start] == OPEN_BRACE
            && ScanObject(s, start) == Complete(start + |item.text|)
            && s[start..start + |item.text|] == item.text
    ensures AllSpace(follow, 0) ==>
              FirstFrame(item.before + (item.text + follow), base, seen, max) == Stop(NeedMore)
  {
    var s := item.before + (item.text + follow);
    var start := |item.before|;
    SpacesThen(item.before, item.text + follow);
    ScanIsStable(item.text, follow, 0);
    RunShifts(item.before, item.text + follow, 0, BeginValue, Empty);
    assert s[start..start + |item.text|] == item.text;
    if AllSpace(follow, 0) {
      assert forall k :: start + |item.text| <= k < |s| ==> s[k] == follow[k - start - |item.text|];
      SkipSpacesUnique(s, start + |item.text|, |s|);
    }
  }

  lemma FoundAt(s: seq<Byte>, end: nat, next: nat, base: nat, seen: bool, max: nat)
    requires var start := SkipSpaces(s, 0);
             start < |s| && s[start] == OPEN_BRACE && ScanObject(s, start) == Complete(end) && end - start <= max
    requires SkipSpaces(s, end) == next < |s| && s[next] in {COMMA, CLOSE_BRACKET}
    ensures var start := SkipSpaces(s, 0);
            FirstFrame(s, base, seen, max)
            == Found(Record(s[start..end], base + start, base + next + 1, Sha256(s[start..end]),
                            s[next] == CLOSE_BRACKET), next + 1)
  {
    hide ScanObject, AllSpace;
  }

  /** Where the whitespace behind an object text ends, and what stands there. */
  lemma DelimiterOfItem(item: Item, d: Byte, rest: seq<Byte>)
    requires AllSpace(item.after, 0) && !IsSpace(d)
    ensures var s := item.before + (item.text + (item.after + [d] + rest));
            var end := |item.before| + |item.text|;
            && item.Bytes() + [d] + rest == s
            && SkipSpaces(s, end) == end + |item.after| < |s| && s[end + |item.after|] == d
  {
    var s := item.before + (item.text + (item.after + [d] + rest));
    var end := |item.before| + |item.text|;
    assert s[end..] == item.after + [d] + rest;
    assert forall k :: end <= k < |s| ==> s[k] == s[end..][k - end];
    SkipSpacesUnique(s, end, end + |item.after|);
  }

  /** An item with its delimiter is the next record, whatever follows. */
  lemma {:induction false} WholeItemIsFound(item: Item, closes: bool, rest: seq<Byte>, base: nat, seen: bool, max: nat)
    requires item.Valid(max)
    ensures FirstFrame(item.Bytes() + [Delimiter(closes)] + rest, base, seen, max)
         == Found(item.At(base, closes), item.Size())
  {
    hide ScanObject, FirstFrame, IsObject, Item.Bytes, AllSpace, SkipSpaces;
    var d := Delimiter(closes);
    var follow := item.after + [d] + rest;
    DelimiterOfItem(item, d, rest);
    FrameOfItem(item, follow, base, seen, max);
    var end := |item.before| + |item.text|;
    FoundAt(item.before + (item.text + follow), end, end + |item.after|, base, seen, max);
  }

  // ---- All items ----

  /**
   * Any cut of the body, followed by whitespace when nothing was cut off. For a
   * closed report the tail is Closed once the closing bracket is there.
   */
  lemma {:induction false} CutBody(items: seq<Item>, closed: bool, trail: seq<Byte>, n: nat,
                                   base: nat, seen: bool, max: nat)
    requires ValidItems(items, max) && AllSpace(trail, 0) && (closed ==> items != [])
    requires n <= |Body(items, closed) + trail|
    ensures var p := ParseItems((Body(items, closed) + trail)[..n], base, seen, max);
            && p.records == Arrived(Expected(items, base, closed), base + n)
            && p.tail == (if closed && n >= |Body(items, closed)| then Closed else NeedMore)
    decreases |items|
  {
    hide FirstFrame, AllSpace, Item.Valid, Arrived, Expected, Item.Bytes, Item.Size, Body;
    var s := (Body(items, closed) + trail)[..n];
    if items == [] {
      NothingToCut(closed, trail, n);
      CutSpaces(trail, n);
      NoneArrive(base, closed, base + n);
      SpacesOnly(s, base, seen, max);
    } else {
      var item, closes := items[0], Closes(items, closed);
      var rest := Body(items[1..], closed) + trail;
      BodySplits(items, closed, trail);
      CutSplits(items, closed, trail, n);
      FirstArrives(items, base, closed, base + n);
      if n < item.Size() {
        CutItemWaits(item, n, base, seen, max);
      } else {
        var more := rest[..n - item.Size()];
        if closes {
          assert items[1..] == [];
          NothingToCut(closed, trail, n - item.Size());
          NoneArrive(base + item.Size(), closed, base + n);
          CutSpaces(trail, n - item.Size());
        } else {
          CutBody(items[1..], closed, trail, n - item.Size(), base + item.Size(), true, max);
        }
        ItemThen(item, closes, more, base, seen, max);
      }
    }
  }

  lemma NothingToCut(closed: bool, trail: seq<Byte>, n: nat)
    requires n <= |Body([], closed) + trail|
    ensures n <= |trail| && Body([], closed) == [] && (Body([], closed) + trail)[..n] == trail[..n]
  {
    assert Body([], closed) + trail == trail;
  }

  /** A cut goes through the first item, or takes it with its delimiter. */
  lemma CutSplits(items: seq<Item>, closed: bool, trail: seq<Byte>, n: nat)
    requires items != [] && n <= |Body(items, closed) + trail|
    ensures |Body(items, closed) + trail| == items[0].Size() + |Body(items[1..], closed) + trail|
    ensures var s, rest := (Body(items, closed) + trail)[..n], Body(items[1..], closed) + trail;
            if n < items[0].Size() then s == items[0].Bytes()[..n]
            else s == items[0].Bytes() + [Delimiter(Closes(items, closed))] + rest[..n - items[0].Size()]
  {
    hide Item.Bytes, Item.Size, Body;
    BodySplits(items, closed, trail);
  }

  /** A whole item, then the parse of what follows it. */
  lemma {:induction false} ItemThen(item: Item, closes: bool, more: seq<Byte>, base: nat, seen: bool, max: nat)
    requires item.Valid(max) && (closes ==> AllSpace(more, 0))
    ensures var s := item.Bytes() + [Delimiter(closes)] + more;
            var r := item.At(base, closes);
            ParseItems(s, base, seen, max)
            == if closes then Parse([r], Closed, base + |s|)
               else Prepend([r], ParseItems(more, base + item.Size(), true, max))
  {
    hide FirstFrame;
    var s := item.Bytes() + [Delimiter(closes)] + more;
    WholeItemIsFound(item, closes, more, base, seen, max);
    assert s[item.Size()..] == more;
    assert forall k :: item.Size() <= k < |s| ==> s[k] == more[k - item.Size()];
  }

  lemma NoneArrive(base: nat, closed: bool, n: nat)
    ensures Arrived(Expected([], base, closed), n) == []
  {
  }

  lemma FirstArrives(items: seq<Item>, base: nat, closed: bool, n: nat)
    requires items != []
    ensures Arrived(Expected(items, base, closed), n)
         == if n < base + items[0].Size() then []
            else [items[0].At(base, Closes(items, closed))]
                 + Arrived(Expected(items[1..], base + items[0].Size(), closed), n)
  {
    var expected := Expected(items, base, closed);
    assert expected[1..] == Expected(items[1..], base + items[0].Size(), closed);
  }

  lemma CutSpaces(s: seq<Byte>, n: nat)
    requires AllSpace(s, 0) && n <= |s|
    ensures AllSpace(s[..n], 0)
  {
  }

  lemma SpacesOnly(s: seq<Byte>, base: nat, seen: bool, max: nat)
    requires AllSpace(s, 0)
    ensures FirstFrame(s, base, seen, max) == Stop(NeedMore)
  {
    SkipSpacesUnique(s, 0, |s|);
  }

  lemma BodySplits(items: seq<Item>, closed: bool, trail: seq<Byte>)
    requires items != []
    ensures Body(items, closed) + trail
         == items[0].Bytes() + [Delimiter(Closes(items, closed))] + (Body(items[1..], closed) + trail)
    ensures items[0].Size() == |items[0].Bytes()| + 1
    ensures |Body(items, closed)| == items[0].Size() + |Body(items[1..], closed)|
  {
  }

  // ---- Whole reports ----

  /**
   * A report file: closed by a bracket, or still being written. Whitespace may
   * stand around the bracket of an empty closed report (`inner` and `trail`).
   */
  datatype Report = Report(lead: seq<Byte>, items: seq<Item>, closed: bool, inner: seq<Byte>, trail: seq<Byte>) {
    ghost predicate Valid(max: nat) {
      && AllSpace(lead, 0) && AllSpace(inner, 0) && AllSpace(trail, 0)
      && ValidItems(items, max)
    }

    /** Everything between the opening bracket and the trailing whitespace. */
    function Block(): seq<Byte> {
      if closed && items == [] then inner + [CLOSE_BRACKET] else Body(items, closed)
    }

    function Print(): seq<Byte> {
      lead + ([OPEN_BRACKET] + (Block() + trail))
    }

    /** The offset just after the last delimiter. */
    function BlockEnd(): nat {
      |lead| + 1 + |Block()|
    }

    function Records(): seq<Record> {
      Expected(items, |lead| + 1, closed)
    }
  }

  /**
   * Round trip with interruption: whatever byte a report is cut at, parsing the
   * part that is there yields exactly the records whose delimiter has arrived.
   * The part is Closed once the closing bracket is there and asks for more
   * otherwise; it is never invalid or too large.
   */
  lemma {:induction false} CutReport(report: Report, n: nat, max: nat)
    requires report.Valid(max) && n <= |report.Print()|
    ensures var p := ParseFile(report.Print()[..n], max);
            && p.records == Arrived(report.Records(), n)
            && p.tail == (if report.closed && n >= report.BlockEnd() then Closed else NeedMore)
  {
    hide ParseItems;
    var s := report.Print()[..n];
    var lead := report.lead;
    if n <= |lead| {
      assert s == lead[..n] + [];
      SpacesThen(lead[..n], []);
      assert ParseFile(s, max).records == [];
      if report.items != [] {
        assert report.Records()[0].end > n;
      }
    } else {
      var all := report.Block() + report.trail;
      var m := n - |lead| - 1;
      assert s == lead + ([OPEN_BRACKET] + all[..m]);
      ParseOpened(lead, all[..m], max);
      if report.closed && report.items == [] {
        CutEmptyBody(report.inner, report.trail, m, |lead| + 1, max);
      } else {
        CutBody(report.items, report.closed, report.trail, m, |lead| + 1, false, max);
      }
    }
  }

  lemma {:induction false} ParseOpened(lead: seq<Byte>, rest: seq<Byte>, max: nat)
    requires AllSpace(lead, 0)
    ensures ParseFile(lead + ([OPEN_BRACKET] + rest), max) == ParseItems(rest, |lead| + 1, false, max)
  {
    hide ParseItems;
    SpacesThen(lead, [OPEN_BRACKET] + rest);
    assert (lead + ([OPEN_BRACKET] + rest))[|lead| + 1..] == rest;
  }

  lemma {:induction false} CutEmptyBody(inner: seq<Byte>, trail: seq<Byte>, n: nat, base: nat, max: nat)
    requires AllSpace(inner, 0) && AllSpace(trail, 0) && n <= |inner| + 1 + |trail|
    ensures var p := ParseItems((inner + [CLOSE_BRACKET] + trail)[..n], base, false, max);
            p.records == [] && p.tail == (if n > |inner| then Closed else NeedMore)
  {
    var s := (inner + [CLOSE_BRACKET] + trail)[..n];
    if n <= |inner| {
      assert s == inner[..n];
      SpacesOnly(s, base, false, max);
    } else {
      assert s == inner + ([CLOSE_BRACKET] + trail[..n - |inner| - 1]);
      SpacesThen(inner, [CLOSE_BRACKET] + trail[..n - |inner| - 1]);
    }
  }

  lemma {:induction false} AllArrive(items: seq<Item>, base: nat, closed: bool, n: nat)
    requires n >= base + |Body(items, closed)|
    ensures Arrived(Expected(items, base, closed), n) == Expected(items, base, closed)
    decreases |items|
  {
    if items != [] {
      BodySplits(items, closed, []);
      AllArrive(items[1..], base + items[0].Size(), closed, n);
      assert Expected(items, base, closed)[1..] == Expected(items[1..], base + items[0].Size(), closed);
    }
  }

  /** Round trip: a whole report parses to exactly the objects it was printed from. */
  lemma {:induction false} PrintThenParse(report: Report, max: nat)
    requires report.Valid(max)
    ensures ParseFile(report.Print(), max).records == report.Records()
    ensures ParseFile(report.Print(), max).tail == (if report.closed then Closed else NeedMore)
  {
    CutReport(report, |report.Print()|, max);
    assert report.Print()[..|report.Print()|] == report.Print();
    AllArrive(report.items, |report.lead| + 1, report.closed, |report.Print()|);
  }

  // ---- Every closed parse comes from a report ----

  /** What stands where a frame has been found. */
  lemma FoundMeans(s: seq<Byte>, base: nat, seen: bool, max: nat)
    requires FirstFrame(s, base, seen, max).Found?
    ensures var start, f := SkipSpaces(s, 0), FirstFrame(s, base, seen, max);
            && start < |s| && s[start] == OPEN_BRACE && ScanObject(s, start).Complete?
            && ScanObject(s, start).end - start <= max
            && f.length == SkipSpaces(s, ScanObject(s, start).end) + 1 <= |s|
            && s[f.length - 1] == Delimiter(f.record.closes)
  {
    hide ScanObject;
  }

  lemma {:induction false} ReadItem(s: seq<Byte>, base: nat, seen: bool, max: nat) returns (item: Item)
    requires FirstFrame(s, base, seen, max).Found?
    ensures var f := FirstFrame(s, base, seen, max);
            && item.Valid(max)
            && s == item.Bytes() + [Delimiter(f.record.closes)] + s[f.length..]
            && item.Size() == f.length
  {
    hide ScanObject, IsObject, FirstFrame, AllSpace, SkipSpaces;
    FoundMeans(s, base, seen, max);
    var n := FirstFrame(s, base, seen, max).length;
    var start := SkipSpaces(s, 0);
    var end := ScanObject(s, start).end;
    item := Item(s[..start], s[start..end], s[end..n - 1]);
    CutOutIsObject(s, start);
    SpacesBetween(s, end, n - 1);
    SpacesBetween(s, 0, start);
    assert s[0..start] == s[..start];
    assert item.Bytes() == s[..n - 1];
  }

  lemma SpacesBetween(s: seq<Byte>, i: nat, j: nat)
    requires i <= |s| && i <= j <= SkipSpaces(s, i)
    ensures AllSpace(s[i..j], 0)
  {
    assert forall k :: 0 <= k < j - i ==> s[i..j][k] == s[i + k];
  }

  lemma OnlyAnEmptyReportStopsClosed(s: seq<Byte>, base: nat, max: nat)
    ensures FirstFrame(s, base, true, max) != Stop(Closed)
  {
  }

  lemma {:induction false} ReadItems(s: seq<Byte>, base: nat, seen: bool, max: nat)
    returns (items: seq<Item>, trail: seq<Byte>)
    requires ParseItems(s, base, seen, max).tail == Closed
    requires seen || ParseItems(s, base, seen, max).records != []
    ensures items != [] && ValidItems(items, max) && AllSpace(trail, 0)
    ensures s == Body(items, true) + trail
    decreases |s|
  {
    hide FirstFrame;
    var f := FirstFrame(s, base, seen, max);
    if seen {
      OnlyAnEmptyReportStopsClosed(s, base, max);
    }
    var item := ReadItem(s, base, seen, max);
    var n := f.length;
    if f.record.closes {
      items, trail := [item], s[n..];
      assert Body(items, true) == item.Bytes() + [CLOSE_BRACKET] + Body([], true);
      assert Body(items, true) == item.Bytes() + [CLOSE_BRACKET];
    } else {
      var more;
      more, trail := ReadItems(s[n..], base + n, true, max);
      items := [item] + more;
      assert items[1..] == more;
      assert Body(items, true) == item.Bytes() + [COMMA] + Body(more, true);
    }
  }

  /**
   * The parse accepts nothing else: a file that parses as closed is the printing
   * of a valid closed report.
   */
  lemma {:induction false} ClosedFileIsReport(s: seq<Byte>, max: nat) returns (report: Report)
    requires ParseFile(s, max).tail == Closed
    ensures report.Valid(max) && report.closed && report.Print() == s
  {
    hide ParseItems;
    var start := SkipSpaces(s, 0);
    var block := s[start + 1..];
    report := ReadBlock(s[..start], block, max);
    assert s == s[..start] + ([OPEN_BRACKET] + block);
  }

  lemma {:induction false} ReadBlock(lead: seq<Byte>, block: seq<Byte>, max: nat) returns (report: Report)
    requires AllSpace(lead, 0)
    requires ParseItems(block, |lead| + 1, false, max).tail == Closed
    ensures report.Valid(max) && report.closed
    ensures report.Print() == lead + ([OPEN_BRACKET] + block)
  {
    hide ParseItems;
    if ParseItems(block, |lead| + 1, false, max).records == [] {
      var inner := ReadEmpty(block, |lead| + 1, max);
      report := Report(lead, [], true, block[..inner], block[inner + 1..]);
      assert report.Block() + report.trail == block;
    } else {
      var items, trail := ReadItems(block, |lead| + 1, false, max);
      report := Report(lead, items, true, [], trail);
    }
  }

  lemma {:induction false} ReadEmpty(s: seq<Byte>, base: nat, max: nat) returns (inner: nat)
    requires ParseItems(s, base, false, max).records == [] && ParseItems(s, base, false, max).tail == Closed
    ensures inner < |s| && s[inner] == CLOSE_BRACKET && AllSpace(s[..inner], 0) && AllSpace(s, inner + 1)
  {
    inner := SkipSpaces(s, 0);
  }

  // ---- Which files can still become reports ----

  /** Some closed report within the limit starts with these bytes. */
  ghost predicate MayClose(s: seq<Byte>, max: nat) {
    exists report: Report :: report.Valid(max) && report.closed && s <= report.Print()
  }

  lemma ClosesWith(s: seq<Byte>, report: Report, max: nat)
    requires report.Valid(max) && report.closed && s <= report.Print()
    ensures MayClose(s, max)
  {
  }

  /** A file that is refused never becomes a report, whatever is appended. */
  lemma {:induction false} RefusedNeverCloses(s: seq<Byte>, max: nat)
    requires ParseFile(s, max).tail in {Invalid, TooLarge}
    ensures !MayClose(s, max)
  {
    hide ParseFile, Report.Print, Report.Valid;
    if MayClose(s, max) {
      var report: Report :| report.Valid(max) && report.closed && s <= report.Print();
      assert report.Print()[..|s|] == s;
      CutReport(report, |s|, max);
    }
  }

  lemma EmptyObject()
    ensures IsObject([OPEN_BRACE, CLOSE_BRACE])
  {
    var o := [OPEN_BRACE, CLOSE_BRACE];
    assert Run(o, 0, BeginValue, Empty) == Run(o, 1, BeginNameOrEmpty, Push(ObjectName, Empty));
  }

  /** What there may be where a frame waits for more. */
  lemma WaitingMeans(s: seq<Byte>, base: nat, seen: bool, max: nat)
    requires FirstFrame(s, base, seen, max) == Stop(NeedMore)
    ensures var start := SkipSpaces(s, 0);
            start < |s| ==>
              && s[start] == OPEN_BRACE
              && (ScanObject(s, start).Complete? ==> SkipSpaces(s, ScanObject(s, start).end) == |s|)
              && (ScanObject(s, start).Malformed? ==> ScanObject(s, start).at + 1 == |s|)
  {
    hide ScanObject;
  }

  /** An item that bytes waiting for more are the beginning of, but for a malformed last byte. */
  lemma {:induction false} FinishItem(s: seq<Byte>, base: nat, seen: bool, max: nat) returns (item: Item, cut: nat)
    requires FirstFrame(s, base, seen, max) == Stop(NeedMore)
    ensures item.Valid(|item.text|) && cut <= |s| <= cut + 1 && s[..cut] <= item.Bytes()
  {
    hide ScanObject, IsObject, FirstFrame, AllSpace, SkipSpaces;
    WaitingMeans(s, base, seen, max);
    var start := SkipSpaces(s, 0);
    SpacesBetween(s, 0, start);
    assert s[0..start] == s[..start];
    NoSpaces();
    cut := |s|;
    if start == |s| {
      EmptyObject();
      item := Item(s[..start], [OPEN_BRACE, CLOSE_BRACE], []);
      assert s[..|s|] == s;
      return;
    }
    var o := ScanObject(s, start);
    if o.Complete? {
      CutOutIsObject(s, start);
      SpacesBetween(s, o.end, |s|);
      item := Item(s[..start], s[start..o.end], s[o.end..|s|]);
      assert item.Bytes() == s;
      return;
    }
    if o.Malformed? {
      cut := |s| - 1;
      OneByteLess(s, start);
    }
    assert s[..|s|] == s;
    item := FinishObject(s, start, cut);
  }

  lemma NoSpaces()
    ensures AllSpace([], 0)
  {
  }

  /** An incomplete object is completed. */
  lemma {:induction false} FinishObject(s: seq<Byte>, start: nat, cut: nat) returns (item: Item)
    requires start < cut <= |s| && s[start] == OPEN_BRACE && ScanObject(s[..cut], start) == Incomplete
    requires AllSpace(s[..start], 0)
    ensures item.Valid(|item.text|) && s[..cut] <= item.Bytes()
  {
    hide ScanObject, IsObject;
    var more := IncompleteGoesOn(s[..cut], start);
    var whole := s[..cut] + more;
    item := Item(s[..start], whole[start..], []);
    assert whole[start..|whole|] == whole[start..];
    assert item.Bytes() == whole;
  }

  /** Without the malformed byte the object is incomplete. */
  lemma {:induction false} OneByteLess(s: seq<Byte>, start: nat)
    requires start < |s| && s[start] == OPEN_BRACE && ScanObject(s, start) == Malformed(|s| - 1)
    ensures start < |s| - 1 && ScanObject(s[..|s| - 1], start) == Incomplete
  {
    assert Run(s, start, BeginValue, Empty) == Run(s, start + 1, BeginNameOrEmpty, Push(ObjectName, Empty));
    assert s[..|s| - 1] + s[|s| - 1..] == s;
    ScanIsStable(s[..|s| - 1], s[|s| - 1..], start);
  }

  lemma WiderLimit(items: seq<Item>, max: nat, wider: nat)
    requires ValidItems(items, max) && max <= wider
    ensures ValidItems(items, wider)
  {
  }

  /** The items of a report that begins like this. */
  lemma {:induction false} FinishItems(s: seq<Byte>, base: nat, seen: bool, max: nat)
    returns (items: seq<Item>, cut: nat, limit: nat)
    requires ParseItems(s, base, seen, max).tail == NeedMore
    ensures items != [] && ValidItems(items, limit) && cut <= |s| <= cut + 1 && s[..cut] <= Body(items, true)
    decreases |s|
  {
    hide FirstFrame, Item.Bytes, Item.Size, AllSpace, IsObject;
    var f := FirstFrame(s, base, seen, max);
    if f.Stop? {
      var item;
      item, cut := FinishItem(s, base, seen, max);
      items, limit := [item], |item.text|;
      assert Body(items, true) == item.Bytes() + [CLOSE_BRACKET] + [];
    } else {
      var item := ReadItem(s, base, seen, max);
      var n := f.length;
      var more;
      more, cut, limit := FinishItems(s[n..], base + n, true, max);
      items := [item] + more;
      assert items[1..] == more;
      var wider := if max < limit then limit else max;
      WiderLimit(more, limit, wider);
      WiderLimit([item], max, wider);
      limit, cut := wider, n + cut;
      assert Body(items, true) == item.Bytes() + [COMMA] + Body(more, true);
      assert s[..cut] == item.Bytes() + [COMMA] + s[n..][..cut - n];
    }
  }

  /** A file that waits for more may still become a report, but for a malformed last byte. */
  lemma {:induction false} WaitingMayClose(s: seq<Byte>, max: nat) returns (cut: nat, limit: nat)
    requires ParseFile(s, max).tail == NeedMore
    ensures cut <= |s| <= cut + 1 && MayClose(s[..cut], limit)
  {
    hide ParseItems, Body;
    var start := SkipSpaces(s, 0);
    if start == |s| {
      cut, limit := |s|, max;
      var report := Report(s, [], true, [], []);
      assert s[..cut] <= report.Print();
      ClosesWith(s[..cut], report, max);
    } else {
      var rest := s[start + 1..];
      var items;
      items, cut, limit := FinishItems(rest, start + 1, false, max);
      var report := Report(s[..start], items, true, [], []);
      cut := start + 1 + cut;
      assert s[..cut] == s[..start] + ([OPEN_BRACKET] + rest[..cut - start - 1]);
      ClosesWith(s[..cut], report, limit);
    }
  }

  // ---- The limit only refuses ----

  lemma {:induction false} LimitOnlyRefuses(s: seq<Byte>, base: nat, seen: bool, max: nat, wider: nat)
    requires max <= wider && ParseItems(s, base, seen, max).tail != TooLarge
    ensures ParseItems(s, base, seen, wider) == ParseItems(s, base, seen, max)
    decreases |s|
  {
    hide FirstFrame;
    var f := FirstFrame(s, base, seen, max);
    SameFrame(s, base, seen, max, wider);
    if f.Found? && !f.record.closes {
      LimitOnlyRefuses(s[f.length..], base + f.length, true, max, wider);
    }
  }

  lemma SameFrame(s: seq<Byte>, base: nat, seen: bool, max: nat, wider: nat)
    requires max <= wider && FirstFrame(s, base, seen, max) != Stop(TooLarge)
    ensures FirstFrame(s, base, seen, wider) == FirstFrame(s, base, seen, max)
  {
    hide ScanObject;
  }

  /** An invalid file never becomes a report under any limit. */
  lemma {:induction false} InvalidNeverCloses(s: seq<Byte>, max: nat, limit: nat)
    requires ParseFile(s, max).tail == Invalid
    ensures !MayClose(s, limit)
  {
    hide ParseItems, MayClose, Report.Valid;
    var wider := if max < limit then limit else max;
    var start := SkipSpaces(s, 0);
    if start < |s| && s[start] == OPEN_BRACKET {
      LimitOnlyRefuses(s[start + 1..], start + 1, false, max, wider);
    }
    RefusedNeverCloses(s, wider);
    if MayClose(s, limit) {
      MayCloseWithin(s, limit, wider);
    }
  }

  lemma MayCloseWithin(s: seq<Byte>, limit: nat, wider: nat)
    requires MayClose(s, limit) && limit <= wider
    ensures MayClose(s, wider)
  {
    hide Report.Print;
    var report: Report :| report.Valid(limit) && report.closed && s <= report.Print();
    WiderLimit(report.items, limit, wider);
    ClosesWith(s, report, wider);
  }
}
