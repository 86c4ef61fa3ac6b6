/**
 * What a report file means: the records and the state of its tail, read off the
 * whole file at once. A report is `[ object , object , ... ]`; an active report
 * has no closing bracket yet. The incremental decoder is specified by this parse.
 */
module Framing {
  import opened Bytes
  import opened JsonScanner

  /** An ideal SHA-256: equal digests mean equal texts. */
  datatype Digest = Sha256(text: seq<Byte>)

  /** A complete report object with its offsets in the file. */
  datatype Record = Record(raw: seq<Byte>, start: nat, end: nat, fingerprint: Digest, closes: bool)

  /** Why no further record can be handed out. */
  datatype Tail = NeedMore | Closed | Invalid | TooLarge

  /**
   * `boundary` is the offset just after the last delimiter that has been
   * accepted: where an incremental reader must stand when it stops.
   */
  datatype Parse = Parse(records: seq<Record>, tail: Tail, boundary: nat)

  /** `length` counts the bytes up to and including the record's delimiter. */
  datatype Frame = Found(record: Record, length: nat) | Stop(tail: Tail)

  /** An object text that stops early: more bytes may help, unless it is too long already. */
  function Unfinished(available: nat, max: nat): Frame {
    Stop(if available > max then TooLarge else NeedMore)
  }

  /**
   * The first record of s, which starts at offset base just after an opening
   * bracket or a comma. A malformed byte in the very last position is taken for
   * a text that stops early.
   */
  function FirstFrame(s: seq<Byte>, base: nat, seen: bool, max: nat): (f: Frame)
    ensures f.Found? ==> 0 < f.length <= |s| && f.record.end == base + f.length
    ensures f.Found? ==> base <= f.record.start < f.record.end && |f.record.raw| <= max
  {
    var start := SkipSpaces(s, 0);
    if start == |s| then Stop(NeedMore)
    else if s[start] == CLOSE_BRACKET then
      Stop(if seen || !AllSpace(s, start + 1) then Invalid else Closed)
    else if s[start] != OPEN_BRACE then Stop(Invalid)
    else match ScanObject(s, start)
      case Incomplete => Unfinished(|s| - start, max)
      case Malformed(at) => if at + 1 == |s| then Unfinished(|s| - start, max) else Stop(Invalid)
      case Complete(end) =>
        if end - start > max then Stop(TooLarge)
        else
          var next := SkipSpaces(s, end);
          if next == |s| then Stop(NeedMore)
          else if s[next] != COMMA && s[next] != CLOSE_BRACKET then Stop(Invalid)
          else Found(Record(s[start..end], base + start, base + next + 1, Sha256(s[start..end]),
                            s[next] == CLOSE_BRACKET), next + 1)
  }

  function Prepend(records: seq<Record>, p: Parse): Parse {
    p.(records := records + p.records)
  }

  function ParseItems(s: seq<Byte>, base: nat, seen: bool, max: nat): (p: Parse)
    decreases |s|
  {
    match FirstFrame(s, base, seen, max)
    case Stop(tail) => Parse([], tail, if tail == Closed then base + |s| else base)
    case Found(record, n) =>
      if !record.closes then Prepend([record], ParseItems(s[n..], base + n, true, max))
      else if AllSpace(s, n) then Parse([record], Closed, base + |s|)
      else Parse([record], Invalid, base)
  }

  function ParseFile(s: seq<Byte>, max: nat): (p: Parse) {
    var start := SkipSpaces(s, 0);
    if start == |s| then Parse([], NeedMore, 0)
    else if s[start] != OPEN_BRACKET then Parse([], Invalid, 0)
    else ParseItems(s[start + 1..], start + 1, false, max)
  }

  // ---- Padding ----

  /** The bytes from `from` to `to` are one span within the limit; all others are whitespace. */
  ghost predicate SpanAt(s: seq<Byte>, from: nat, to: nat, max: nat) {
    && from <= to <= |s| && to - from <= max
    && AllSpace(s[..from], 0) && AllSpace(s, to)
  }

  /** Whitespace apart from one span of at most max bytes. */
  ghost predicate OneSpan(s: seq<Byte>, max: nat) {
    exists from: nat, to: nat :: SpanAt(s, from, to, max)
  }

  /** One such stretch, and what one read of at most `read` bytes has put behind it. */
  ghost predicate SpanThenRead(s: seq<Byte>, max: nat, read: nat) {
    exists kept: nat :: kept <= |s| && |s| - kept <= read && OneSpan(s[..kept], max)
  }

  lemma SpanDrops(s: seq<Byte>, max: nat, n: nat)
    requires OneSpan(s, max) && n <= |s|
    ensures OneSpan(s[n..], max)
  {
    var from: nat, to: nat :| SpanAt(s, from, to, max);
    var t := s[n..];
    var from', to' := if from < n then 0 else from - n, if to < n then 0 else to - n;
    assert forall k :: 0 <= k < from' ==> t[..from'][k] == s[..from][k + n];
    assert SpanAt(t, from', to', max);
  }

  /** What is left of the bytes held after a read is of the same kind. */
  lemma SpanThenReadDrops(s: seq<Byte>, max: nat, read: nat, n: nat)
    requires SpanThenRead(s, max, read) && n <= |s|
    ensures SpanThenRead(s[n..], max, read)
  {
    var kept: nat :| kept <= |s| && |s| - kept <= read && OneSpan(s[..kept], max);
    var t := s[n..];
    if n <= kept {
      SpanDrops(s[..kept], max, n);
      assert t[..kept - n] == s[..kept][n..];
    } else {
      assert SpanAt(t[..0], 0, 0, max);
    }
  }

  lemma NothingHeld(max: nat, read: nat)
    ensures SpanThenRead([], max, read) && OneSpan([], max)
  {
    var s: seq<Byte> := [];
    assert SpanAt(s[..0], 0, 0, max) && s[..0] == s;
  }

  lemma SpanThenReadFollows(s: seq<Byte>, data: seq<Byte>, max: nat, read: nat)
    requires OneSpan(s, max) && |data| <= read
    ensures SpanThenRead(s + data, max, read)
  {
    assert (s + data)[..|s|] == s;
  }

  /** How many bytes of s are not whitespace. */
  function NonSpaces(s: seq<Byte>): nat {
    if s == [] then 0 else (if IsSpace(s[0]) then 0 else 1) + NonSpaces(s[1..])
  }

  lemma {:induction false} NonSpacesSplit(s: seq<Byte>, t: seq<Byte>)
    ensures NonSpaces(s + t) == NonSpaces(s) + NonSpaces(t)
    ensures NonSpaces(s) <= |s|
  {
    if s == [] {
      assert s + t == t;
    } else {
      assert (s + t)[1..] == s[1..] + t;
      NonSpacesSplit(s[1..], t);
    }
  }

  lemma {:induction false} NoNonSpaces(s: seq<Byte>)
    requires AllSpace(s, 0)
    ensures NonSpaces(s) == 0
  {
    if s != [] {
      NoNonSpaces(s[1..]);
    }
  }

  /** So the bytes held after a read that are not padding are at most the limit plus the read. */
  lemma {:induction false} HeldIsBounded(s: seq<Byte>, max: nat, read: nat)
    requires SpanThenRead(s, max, read)
    ensures NonSpaces(s) <= max + read
  {
    var n: nat :| n <= |s| && |s| - n <= read && OneSpan(s[..n], max);
    var from: nat, to: nat :| SpanAt(s[..n], from, to, max);
    var kept := s[..n];
    NoNonSpaces(kept[..from]);
    NoNonSpaces(kept[to..]);
    NonSpacesSplit(kept[..from], kept[from..to]);
    assert kept[..to] == kept[..from] + kept[from..to];
    NonSpacesSplit(kept[from..to], []);
    NonSpacesSplit(kept[..to], kept[to..]);
    assert kept == kept[..to] + kept[to..];
    NonSpacesSplit(kept, s[n..]);
    assert s == kept + s[n..];
    NonSpacesSplit(s[n..], []);
  }

  /** Bytes that wait for more are whitespace apart from one object span within the limit. */
  lemma {:induction false} WaitingIsBounded(s: seq<Byte>, base: nat, seen: bool, max: nat)
    requires FirstFrame(s, base, seen, max) == Stop(NeedMore)
    ensures OneSpan(s, max)
  {
    hide ScanObject;
    var start := SkipSpaces(s, 0);
    var end := if start < |s| && ScanObject(s, start).Complete? then ScanObject(s, start).end else |s|;
    assert SpanAt(s, start, end, max);
  }

  // ---- Extending the input ----

  lemma Rejoin(s: seq<Byte>, n: nat, more: seq<Byte>)
    requires n <= |s|
    ensures s[..n] + (s[n..] + more) == s + more
  {
    assert s == s[..n] + s[n..];
  }

  /** A record that has been framed does not depend on what follows its delimiter. */
  lemma {:induction false} FrameIsStable(s: seq<Byte>, rest: seq<Byte>, base: nat, seen: bool, max: nat)
    requires FirstFrame(s, base, seen, max).Found?
    ensures var n := FirstFrame(s, base, seen, max).length;
            FirstFrame(s[..n] + rest, base, seen, max) == FirstFrame(s, base, seen, max)
  {
    var n := FirstFrame(s, base, seen, max).length;
    var t := s[..n] + rest;
    var start := SkipSpaces(s, 0);
    var end := ScanObject(s, start).end;
    SameBytes(s, t, n);
    SkipSpacesUnique(t, 0, start);
    RunAgrees(s, t, start, n, BeginValue, Empty);
    SkipSpacesUnique(t, end, n - 1);
    SameText(s, t, n, start, end);
  }

  lemma SameBytes(s: seq<Byte>, t: seq<Byte>, n: nat)
    requires n <= |s| && n <= |t| && t[..n] == s[..n]
    ensures forall k :: 0 <= k < n ==> t[k] == s[k]
  {
    assert forall k :: 0 <= k < n ==> t[k] == t[..n][k] == s[..n][k] == s[k];
  }

  lemma SameText(s: seq<Byte>, t: seq<Byte>, n: nat, from: nat, to: nat)
    requires from <= to <= n <= |s| && n <= |t| && forall k :: 0 <= k < n ==> t[k] == s[k]
    ensures t[from..to] == s[from..to]
  {
  }

  /** Later verdicts on the place where an earlier one stopped. */
  predicate MayBecome(now: Tail, later: Tail) {
    match now
    case NeedMore => true
    case Closed => later == Closed || later == Invalid
    case Invalid => later == Invalid
    case TooLarge => later == TooLarge || later == Invalid
  }

  /**
   * A refusal is final: once the bytes at hand are invalid or too large no
   * further byte turns them into a record, and a closed report stays closed or
   * becomes invalid.
   */
  lemma {:induction false} StopIsStable(s: seq<Byte>, more: seq<Byte>, base: nat, seen: bool, max: nat)
    requires FirstFrame(s, base, seen, max).Stop?
    requires FirstFrame(s, base, seen, max).tail != NeedMore
    ensures FirstFrame(s + more, base, seen, max).Stop?
    ensures MayBecome(FirstFrame(s, base, seen, max).tail, FirstFrame(s + more, base, seen, max).tail)
  {
    var t := s + more;
    var start := SkipSpaces(s, 0);
    SkipSpacesUnique(t, 0, start);
    if s[start] == CLOSE_BRACKET {
      if !AllSpace(s, start + 1) {
        var k :| start + 1 <= k < |s| && !IsSpace(s[k]);
        assert !IsSpace(t[k]);
      }
    } else if s[start] == OPEN_BRACE {
      ScanIsStable(s, more, start);
      var o := ScanObject(s, start);
      if o.Complete? && o.end - start <= max {
        var end := o.end;
        SkipSpacesUnique(t, end, SkipSpaces(s, end));
      }
    }
  }

  /** `later` reads a longer version of the report that `now` read. */
  ghost predicate Continues(now: Parse, later: Parse) {
    && now.records <= later.records
    && MayBecome(now.tail, later.tail)
    && (now.tail != NeedMore ==> later.records == now.records)
  }

  lemma PrependContinues(records: seq<Record>, now: Parse, later: Parse)
    requires Continues(now, later)
    ensures Continues(Prepend(records, now), Prepend(records, later))
  {
  }

  /** Where no record was found, or the last one was. */
  lemma {:induction false} EndIsStable(s: seq<Byte>, more: seq<Byte>, base: nat, seen: bool, max: nat)
    requires FirstFrame(s, base, seen, max).Found? ==> FirstFrame(s, base, seen, max).record.closes
    ensures Continues(ParseItems(s, base, seen, max), ParseItems(s + more, base, seen, max))
  {
    hide FirstFrame;
    var f := FirstFrame(s, base, seen, max);
    if f.Found? {
      assert s + more == s[..f.length] + (s[f.length..] + more);
      FrameIsStable(s, s[f.length..] + more, base, seen, max);
      SpacesExtend(s, more, f.length);
    } else if f.tail != NeedMore {
      StopIsStable(s, more, base, seen, max);
    }
  }

  lemma {:induction false} ItemsAreStable(s: seq<Byte>, more: seq<Byte>, base: nat, seen: bool, max: nat)
    ensures Continues(ParseItems(s, base, seen, max), ParseItems(s + more, base, seen, max))
    decreases |s|
  {
    hide FirstFrame, Continues;
    var f := FirstFrame(s, base, seen, max);
    if f.Stop? || f.record.closes {
      EndIsStable(s, more, base, seen, max);
    } else {
      var n := f.length;
      assert s + more == s[..n] + (s[n..] + more);
      FrameIsStable(s, s[n..] + more, base, seen, max);
      assert (s + more)[n..] == s[n..] + more;
      ItemsAreStable(s[n..], more, base + n, true, max);
      PrependContinues([f.record], ParseItems(s[n..], base + n, true, max),
                       ParseItems(s[n..] + more, base + n, true, max));
    }
  }

  lemma SpacesExtend(s: seq<Byte>, more: seq<Byte>, n: nat)
    requires n <= |s|
    ensures AllSpace(s + more, n) <==> AllSpace(s, n) && AllSpace(more, 0)
  {
    assert forall k :: n <= k < |s| ==> (s + more)[k] == s[k];
    assert forall k :: 0 <= k < |more| ==> (s + more)[|s| + k] == more[k];
  }

  /**
   * Appending to a report never revises it: the records found so far stay, in
   * order, and a tail other than NeedMore admits no further record.
   */
  lemma {:induction false} AppendNeverRevises(s: seq<Byte>, more: seq<Byte>, max: nat)
    ensures Continues(ParseFile(s, max), ParseFile(s + more, max))
  {
    var start := SkipSpaces(s, 0);
    if start < |s| {
      SkipSpacesUnique(s + more, 0, start);
      assert (s + more)[start + 1..] == s[start + 1..] + more;
      ItemsAreStable(s[start + 1..], more, start + 1, false, max);
    }
  }

  // ---- Where the records lie ----

  /** The record quotes an object text of the file, at its offsets. */
  ghost predicate Quotes(r: Record, s: seq<Byte>) {
    && r.start + |r.raw| < r.end <= |s|
    && s[r.start..r.start + |r.raw|] == r.raw
    && IsObject(r.raw)
    && r.fingerprint == Sha256(r.raw)
    && s[r.end - 1] == (if r.closes then CLOSE_BRACKET else COMMA)
  }

  /** Records of s from offset `from` on, in order, not overlapping, the closing one last. */
  ghost predicate InOrder(records: seq<Record>, s: seq<Byte>, from: nat) {
    records == [] ||
    (&& from <= records[0].start
     && Quotes(records[0], s)
     && (records[0].closes ==> |records| == 1)
     && InOrder(records[1..], s, records[0].end))
  }

  lemma {:induction false} FrameQuotes(before: seq<Byte>, s: seq<Byte>, seen: bool, max: nat)
    requires FirstFrame(s, |before|, seen, max).Found?
    ensures Quotes(FirstFrame(s, |before|, seen, max).record, before + s)
    ensures |before| <= FirstFrame(s, |before|, seen, max).record.start
  {
    var start := SkipSpaces(s, 0);
    var end := ScanObject(s, start).end;
    var r := FirstFrame(s, |before|, seen, max).record;
    CutOutIsObject(s, start);
    assert (before + s)[|before| + start..|before| + end] == s[start..end];
    assert (before + s)[r.end - 1] == s[SkipSpaces(s, end)];
  }

  lemma {:induction false} ItemsInOrder(before: seq<Byte>, s: seq<Byte>, seen: bool, max: nat)
    ensures InOrder(ParseItems(s, |before|, seen, max).records, before + s, |before|)
    decreases |s|
  {
    hide FirstFrame;
    var f := FirstFrame(s, |before|, seen, max);
    if f.Found? {
      FrameQuotes(before, s, seen, max);
      if !f.record.closes {
        var next := before + s[..f.length];
        assert next + s[f.length..] == before + s;
        ItemsInOrder(next, s[f.length..], true, max);
        var rest := ParseItems(s[f.length..], |next|, true, max).records;
        var all := ParseItems(s, |before|, seen, max).records;
        assert all == [f.record] + rest;
        assert all[1..] == rest;
      }
    }
  }

  /** The records of a report are disjoint object texts of the file, in file order. */
  lemma {:induction false} RecordsInOrder(s: seq<Byte>, max: nat)
    ensures InOrder(ParseFile(s, max).records, s, 0)
  {
    hide ParseItems;
    var start := SkipSpaces(s, 0);
    if start < |s| && s[start] == OPEN_BRACKET {
      ItemsInOrder(s[..start + 1], s[start + 1..], false, max);
      assert s[..start + 1] + s[start + 1..] == s;
    }
  }

  lemma {:induction false} LaterItemsLieBehind(before: seq<Byte>, s: seq<Byte>, more: seq<Byte>, seen: bool, max: nat)
    ensures var now, later := ParseItems(s, |before|, seen, max), ParseItems(s + more, |before|, seen, max);
            now.records <= later.records
            && InOrder(later.records[|now.records|..], before + (s + more), now.boundary)
    decreases |s|
  {
    hide FirstFrame, Quotes;
    var now, later := ParseItems(s, |before|, seen, max), ParseItems(s + more, |before|, seen, max);
    ItemsAreStable(s, more, |before|, seen, max);
    var f := FirstFrame(s, |before|, seen, max);
    if f.Stop? {
      if f.tail == NeedMore {
        ItemsInOrder(before, s + more, seen, max);
        assert later.records[0..] == later.records;
      }
    } else if !f.record.closes {
      var n := f.length;
      var next := before + s[..n];
      assert s + more == s[..n] + (s[n..] + more);
      FrameIsStable(s, s[n..] + more, |before|, seen, max);
      assert (s + more)[n..] == s[n..] + more;
      assert next + (s[n..] + more) == before + (s + more);
      LaterItemsLieBehind(next, s[n..], more, true, max);
      var nowRest, laterRest := ParseItems(s[n..], |next|, true, max), ParseItems(s[n..] + more, |next|, true, max);
      assert later.records[|now.records|..] == laterRest.records[|nowRest.records|..];
    }
  }

  /** Records that only later bytes complete start at or behind the earlier boundary. */
  lemma {:induction false} LaterRecordsLieBehind(s: seq<Byte>, more: seq<Byte>, max: nat)
    ensures var now, later := ParseFile(s, max), ParseFile(s + more, max);
            now.records <= later.records
            && InOrder(later.records[|now.records|..], s + more, now.boundary)
  {
    hide ParseItems, Quotes;
    AppendNeverRevises(s, more, max);
    var start := SkipSpaces(s, 0);
    if start < |s| {
      SkipSpacesUnique(s + more, 0, start);
      assert (s + more)[start + 1..] == s[start + 1..] + more;
      LaterItemsLieBehind(s[..start + 1], s[start + 1..], more, false, max);
      assert s[..start + 1] + (s[start + 1..] + more) == s + more;
    } else {
      RecordsInOrder(s + more, max);
      assert ParseFile(s + more, max).records[0..] == ParseFile(s + more, max).records;
    }
  }

  lemma {:induction false} ItemsEndByBoundary(s: seq<Byte>, base: nat, seen: bool, max: nat)
    requires ParseItems(s, base, seen, max).tail in {NeedMore, Closed}
    ensures var p := ParseItems(s, base, seen, max);
            base <= p.boundary <= base + |s|
            && forall i :: 0 <= i < |p.records| ==> p.records[i].end <= p.boundary
    decreases |s|
  {
    hide FirstFrame;
    var f := FirstFrame(s, base, seen, max);
    if f.Found? && !f.record.closes {
      ItemsEndByBoundary(s[f.length..], base + f.length, true, max);
      FrameEnds(s, base, seen, max);
    } else if f.Found? {
      FrameEnds(s, base, seen, max);
    }
  }

  lemma FrameEnds(s: seq<Byte>, base: nat, seen: bool, max: nat)
    requires FirstFrame(s, base, seen, max).Found?
    ensures FirstFrame(s, base, seen, max).record.end == base + FirstFrame(s, base, seen, max).length <= base + |s|
  {
  }

  /** Unless the file is invalid or too large, its records end at or before the boundary. */
  lemma {:induction false} RecordsEndByBoundary(s: seq<Byte>, max: nat)
    requires ParseFile(s, max).tail in {NeedMore, Closed}
    ensures var p := ParseFile(s, max);
            p.boundary <= |s| && forall i :: 0 <= i < |p.records| ==> p.records[i].end <= p.boundary
  {
    hide ParseItems;
    var start := SkipSpaces(s, 0);
    if start < |s| {
      ItemsEndByBoundary(s[start + 1..], start + 1, false, max);
    }
  }

  /** A record closed by a bracket ends the parse: nothing but whitespace may follow it. */
  lemma {:induction false} ClosingEndsItems(s: seq<Byte>, base: nat, seen: bool, max: nat)
    ensures var p := ParseItems(s, base, seen, max);
            && (forall i :: 0 <= i < |p.records| && p.records[i].closes ==> i + 1 == |p.records|)
            && (p.records != [] && p.records[|p.records| - 1].closes ==> p.tail in {Closed, Invalid})
    decreases |s|
  {
    hide FirstFrame;
    var f := FirstFrame(s, base, seen, max);
    if f.Found? && !f.record.closes {
      ClosingEndsItems(s[f.length..], base + f.length, true, max);
    }
  }

  lemma {:induction false} ClosingEndsReport(s: seq<Byte>, max: nat)
    ensures var p := ParseFile(s, max);
            && (forall i :: 0 <= i < |p.records| && p.records[i].closes ==> i + 1 == |p.records|)
            && (p.records != [] && p.records[|p.records| - 1].closes ==> p.tail in {Closed, Invalid})
  {
    hide ParseItems;
    var start := SkipSpaces(s, 0);
    if start < |s| {
      ClosingEndsItems(s[start + 1..], start + 1, false, max);
    }
  }

  /** Up to its closing bracket, a report with garbage behind it is a closed one. */
  lemma {:induction false} ClosedBeforeGarbage(s: seq<Byte>, base: nat, seen: bool, max: nat) returns (n: nat)
    requires EndsInGarbage(ParseItems(s, base, seen, max))
    ensures n <= |s| && ParseItems(s[..n], base, seen, max).tail == Closed
    decreases |s|
  {
    hide FirstFrame;
    var f := FirstFrame(s, base, seen, max);
    if f.record.closes {
      n := f.length;
      FrameIsStable(s, [], base, seen, max);
      assert s[..n] + [] == s[..n];
    } else {
      var rest := s[f.length..];
      assert ParseItems(s, base, seen, max).records[1..] == ParseItems(rest, base + f.length, true, max).records;
      n := ClosedBeforeGarbage(rest, base + f.length, true, max);
      ParseAfter(s, rest[..n], base, seen, max);
      assert s[..f.length] + rest[..n] == s[..f.length + n];
      n := f.length + n;
    }
  }

  /** Something other than whitespace follows the closing bracket of a report with records. */
  predicate EndsInGarbage(p: Parse) {
    p.tail == Invalid && p.records != [] && p.records[|p.records| - 1].closes
  }

  lemma {:induction false} InOrderBounds(records: seq<Record>, s: seq<Byte>, from: nat)
    requires InOrder(records, s, from)
    ensures forall i :: 0 <= i < |records| ==> from <= records[i].start < records[i].end <= |s|
    ensures forall i, j :: 0 <= i < j < |records| ==> records[i].end <= records[j].start
    decreases |records|
  {
    if records != [] {
      InOrderBounds(records[1..], s, records[0].end);
      assert forall i :: 0 < i < |records| ==> records[i] == records[1..][i - 1];
    }
  }

  // ---- Reading a prefix ----

  /** How far into the report a reader has come. */
  datatype Stage = Unopened | Inside(seen: bool) | Ended

  /**
   * Having read `consumed` and handed out `delivered`, a reader stands at `stage`:
   * whatever follows, the whole report is what was delivered and then what the
   * rest says.
   */
  ghost predicate Reached(consumed: seq<Byte>, delivered: seq<Record>, stage: Stage, max: nat) {
    match stage
    case Unopened => consumed == [] && delivered == []
    case Inside(seen) =>
      forall rest :: ParseFile(consumed + rest, max)
                     == Prepend(delivered, ParseItems(rest, |consumed|, seen, max))
    case Ended =>
      forall rest :: EndedWith(ParseFile(consumed + rest, max), delivered, rest, |consumed|)
  }

  ghost predicate EndedWith(p: Parse, delivered: seq<Record>, rest: seq<Byte>, base: nat) {
    && p.records == delivered
    && p.tail == (if AllSpace(rest, 0) then Closed else Invalid)
    && (p.tail == Closed ==> p.boundary == base + |rest|)
  }

  lemma {:induction false} ReachOpening(s: seq<Byte>, max: nat)
    requires SkipSpaces(s, 0) < |s| && s[SkipSpaces(s, 0)] == OPEN_BRACKET
    ensures Reached(s[..SkipSpaces(s, 0) + 1], [], Inside(false), max)
  {
    var start := SkipSpaces(s, 0);
    var consumed := s[..start + 1];
    forall rest
      ensures ParseFile(consumed + rest, max) == Prepend([], ParseItems(rest, |consumed|, false, max))
    {
      var t := consumed + rest;
      SkipSpacesUnique(t, 0, start);
      assert t[start + 1..] == rest;
    }
  }

  /** Accepting a record that does not close the report. */
  lemma {:induction false} ReachNext(consumed: seq<Byte>, delivered: seq<Record>, s: seq<Byte>, seen: bool, max: nat)
    requires Reached(consumed, delivered, Inside(seen), max)
    requires FirstFrame(s, |consumed|, seen, max).Found?
    requires !FirstFrame(s, |consumed|, seen, max).record.closes
    ensures var f := FirstFrame(s, |consumed|, seen, max);
            Reached(consumed + s[..f.length], delivered + [f.record], Inside(true), max)
  {
    hide FirstFrame, ParseFile, ParseItems;
    var f := FirstFrame(s, |consumed|, seen, max);
    var next := consumed + s[..f.length];
    forall rest
      ensures ParseFile(next + rest, max)
           == Prepend(delivered + [f.record], ParseItems(rest, |next|, true, max))
    {
      assert next + rest == consumed + (s[..f.length] + rest);
      ParseAfter(s, rest, |consumed|, seen, max);
      PrependTwice(delivered, f.record, ParseItems(rest, |next|, true, max));
    }
  }

  /** A framed record comes first, whatever follows its delimiter. */
  lemma {:induction false} ParseAfter(s: seq<Byte>, rest: seq<Byte>, base: nat, seen: bool, max: nat)
    requires FirstFrame(s, base, seen, max).Found?
    requires !FirstFrame(s, base, seen, max).record.closes
    ensures var f := FirstFrame(s, base, seen, max);
            ParseItems(s[..f.length] + rest, base, seen, max)
            == Prepend([f.record], ParseItems(rest, base + f.length, true, max))
  {
    hide FirstFrame;
    var f := FirstFrame(s, base, seen, max);
    FrameIsStable(s, rest, base, seen, max);
    assert (s[..f.length] + rest)[f.length..] == rest;
  }

  lemma PrependTwice(records: seq<Record>, r: Record, p: Parse)
    ensures Prepend(records, Prepend([r], p)) == Prepend(records + [r], p)
  {
    assert records + ([r] + p.records) == records + [r] + p.records;
  }

  /** Accepting the record that closes the report, with only whitespace behind it. */
  lemma {:induction false} ReachEnd(consumed: seq<Byte>, delivered: seq<Record>, s: seq<Byte>, seen: bool, max: nat)
    requires Reached(consumed, delivered, Inside(seen), max)
    requires FirstFrame(s, |consumed|, seen, max).Found?
    requires FirstFrame(s, |consumed|, seen, max).record.closes
    requires AllSpace(s, FirstFrame(s, |consumed|, seen, max).length)
    ensures Reached(consumed + s, delivered + [FirstFrame(s, |consumed|, seen, max).record], Ended, max)
  {
    hide FirstFrame, ParseFile;
    var f := FirstFrame(s, |consumed|, seen, max);
    forall rest
      ensures EndedWith(ParseFile(consumed + s + rest, max), delivered + [f.record], rest, |consumed + s|)
    {
      assert consumed + s + rest == consumed + (s + rest);
      assert s + rest == s[..f.length] + (s[f.length..] + rest);
      FrameIsStable(s, s[f.length..] + rest, |consumed|, seen, max);
      SpacesExtend(s, rest, f.length);
    }
  }

  /** The closing bracket of a report without records. */
  lemma {:induction false} ReachEmptyEnd(consumed: seq<Byte>, delivered: seq<Record>, s: seq<Byte>, seen: bool,
                                         max: nat)
    requires Reached(consumed, delivered, Inside(seen), max)
    requires FirstFrame(s, |consumed|, seen, max) == Stop(Closed)
    ensures Reached(consumed + s, delivered, Ended, max)
  {
    hide ParseFile, ScanObject;
    var start := SkipSpaces(s, 0);
    forall rest
      ensures EndedWith(ParseFile(consumed + s + rest, max), delivered, rest, |consumed + s|)
    {
      assert consumed + s + rest == consumed + (s + rest);
      SkipSpacesUnique(s + rest, 0, start);
      SpacesExtend(s, rest, start + 1);
    }
  }

  lemma {:induction false} ReachPastEnd(consumed: seq<Byte>, delivered: seq<Record>, spaces: seq<Byte>, max: nat)
    requires Reached(consumed, delivered, Ended, max) && AllSpace(spaces, 0)
    ensures Reached(consumed + spaces, delivered, Ended, max)
  {
    hide ParseFile;
    forall rest
      ensures EndedWith(ParseFile(consumed + spaces + rest, max), delivered, rest, |consumed + spaces|)
    {
      assert consumed + spaces + rest == consumed + (spaces + rest);
      SpacesExtend(spaces, rest, 0);
      assert EndedWith(ParseFile(consumed + (spaces + rest), max), delivered, spaces + rest, |consumed|);
    }
  }
}
