/**
 * One report in chunks: what a decoder delivers of a file, whatever pieces it arrives
 * in and however Next and Commit are interleaved with them, and exactly when the
 * pieces matter.
 */
module Chunking {
  import opened Bytes
  import opened Framing
  import opened JsonPrinter
  import opened Decoders
  import opened Reports

  // ---- Well-framed reports ----

  /**
   * Round trip with interruption. Whatever chunks a report arrived in so far, and
   * however Next and Commit were interleaved, the committed records are the first of
   * those whose delimiter has arrived; Next answers with the following one until all
   * of them are committed, and then asks for more, or reports the end of a report
   * whose closing bracket has arrived. It never fails, and the next bytes of the
   * report are never refused, whatever chunk they come in.
   */
  lemma {:induction false} InterruptedRoundTrip(d: Decoder, report: Report, n: nat)
    requires d.Valid() && report.Valid(d.maxRecordBytes)
    requires n <= |report.Print()| && d.fed == report.Print()[..n]
    ensures d.delivered <= Arrived(report.Records(), n) <= report.Records()
    ensures Judge(d.Parsed(), |d.delivered|)
         == if |d.delivered| < |Arrived(report.Records(), n)|
            then Deliver(Arrived(report.Records(), n)[|d.delivered|])
            else Withhold(if report.closed && n >= report.BlockEnd() then Closed else NeedMore)
    ensures forall m :: n <= m <= |report.Print()| ==> !d.Refuses(report.Print()[n..m])
  {
    hide ParseFile, AllSpace, Report.Print, Report.Records, Report.BlockEnd, Report.Valid;
    forall m | n <= m <= |report.Print()|
      ensures !d.Refuses(report.Print()[n..m])
    {
      NextBytesAreAccepted(d, report, n, m);
    }
    CutReport(report, n, d.maxRecordBytes);
    d.DeliveredIsPrefix();
    ArrivedFirst(report.Records(), n);
  }

  /** Only a file that is invalid behind its closing bracket has a chunk refused, and no report is. */
  lemma {:induction false} NextBytesAreAccepted(d: Decoder, report: Report, n: nat, m: nat)
    requires d.Valid() && report.Valid(d.maxRecordBytes)
    requires n <= m <= |report.Print()| && d.fed == report.Print()[..n]
    ensures !d.Refuses(report.Print()[n..m])
  {
    hide ParseFile, Report.Print, Report.Records, Report.BlockEnd, Report.Valid;
    var chunk := report.Print()[n..m];
    if d.Refuses(chunk) {
      d.RefusedIsInvalid(chunk, []);
      assert d.fed + chunk + [] == report.Print()[..m];
      CutReport(report, m, d.maxRecordBytes);
      assert false;
    }
  }

  lemma {:induction false} ArrivedFirst(records: seq<Record>, n: nat)
    ensures Arrived(records, n) <= records
  {
    if records != [] && records[0].end <= n {
      ArrivedFirst(records[1..], n);
      assert records == [records[0]] + records[1..];
    }
  }

  /**
   * Chunking does not matter: two decoders that were fed the same bytes agree on
   * every record both have committed, and on everything once both have no more.
   */
  lemma {:induction false} SameBytesSameRecords(a: Decoder, b: Decoder)
    requires a.Valid() && b.Valid() && a.fed == b.fed && a.maxRecordBytes == b.maxRecordBytes
    ensures a.delivered <= b.delivered || b.delivered <= a.delivered
    ensures |a.delivered| == |b.delivered| ==>
              a.delivered == b.delivered && Judge(a.Parsed(), |a.delivered|) == Judge(b.Parsed(), |b.delivered|)
  {
    hide ParseFile;
    a.DeliveredIsPrefix();
    b.DeliveredIsPrefix();
  }

  // ---- Any file ----

  /** Delivers and commits until the decoder has nothing more to deliver. */
  method DeliverAll(d: Decoder)
    requires d.Valid()
    modifies d
    ensures d.Valid() && d.fed == old(d.fed) && old(d.delivered) <= d.delivered
    ensures Judge(d.Parsed(), |d.delivered|).Withhold? && d.pending.None?
    ensures (d.closed <==> d.Parsed().tail == Closed) && (old(d.closed) ==> d.closed)
  {
    hide ParseFile, Reached, Decoder.PendingIsNext;
    while true
      invariant d.Valid() && d.fed == old(d.fed) && old(d.delivered) <= d.delivered
      invariant old(d.closed) ==> d.closed
      decreases |d.buffer|
    {
      var next := d.Next();
      if next.Refused? {
        assert Judge(d.Parsed(), |d.delivered|) == Withhold(next.tail);
        return;
      }
      var committed := d.Commit(next.issued);
    }
  }

  /** What is delivered of a file that arrives in two pieces, the first one of n bytes. */
  function DeliveredInTwo(file: seq<Byte>, n: nat, max: nat): seq<Record>
    requires n <= |file|
  {
    var p := ParseFile(file, max);
    if EndsInGarbage(p) && ParseFile(file[..n], max).tail != Closed then p.records[..|p.records| - 1]
    else p.records
  }

  /** Offers a file in two pieces and delivers what there is after each. */
  method OfferInTwo(file: seq<Byte>, n: nat, maxRecordBytes: nat) returns (d: Decoder)
    requires 0 < maxRecordBytes && n <= |file|
    ensures fresh(d) && d.Valid() && d.maxRecordBytes == maxRecordBytes
    ensures d.Offered(file) && Judge(d.Parsed(), |d.delivered|).Withhold?
    ensures d.delivered == DeliveredInTwo(file, n, maxRecordBytes)
  {
    hide ParseFile, Decoder.Valid, Judge;
    d := new Decoder(maxRecordBytes);
    assert [] + file[..n] == file[..n] && file[..n] + file[n..] == file;
    var first := d.Append(0, file[..n]);
    DeliverAll(d);
    assert d.closed <==> ParseFile(file[..n], maxRecordBytes).tail == Closed;
    var second := d.Append(n, file[n..]);
    if second == Appended {
      DeliverAll(d);
    }
    d.OfferedIsExact(file);
  }

  /**
   * Exactly when chunks do not matter: every way of cutting the file in two delivers
   * the same records if and only if nothing but whitespace follows its closing
   * bracket. By OfferedIsExact, no schedule delivers anything else.
   */
  lemma {:induction false} ChunksAgreeExactly(file: seq<Byte>, max: nat)
    ensures (forall n, m :: 0 <= n <= |file| && 0 <= m <= |file| ==>
               DeliveredInTwo(file, n, max) == DeliveredInTwo(file, m, max))
       <==> !EndsInGarbage(ParseFile(file, max))
  {
    hide ParseFile;
    if EndsInGarbage(ParseFile(file, max)) {
      var n := ClosedFilePrefix(file, max);
      assert file[..|file|] == file;
      assert DeliveredInTwo(file, n, max) != DeliveredInTwo(file, |file|, max);
    }
  }

  lemma {:induction false} ClosedFilePrefix(file: seq<Byte>, max: nat) returns (n: nat)
    requires EndsInGarbage(ParseFile(file, max))
    ensures n <= |file| && ParseFile(file[..n], max).tail == Closed
  {
    hide ParseItems;
    var start := SkipSpaces(file, 0);
    n := ClosedBeforeGarbage(file[start + 1..], start + 1, false, max);
    SkipSpacesUnique(file[..start + 1 + n], 0, start);
    assert file[..start + 1 + n][start + 1..] == file[start + 1..][..n];
    n := start + 1 + n;
  }

  /** One empty object between brackets, in a single line. */
  const ONE_RECORD: seq<Byte> := [OPEN_BRACKET, OPEN_BRACE, CLOSE_BRACE, CLOSE_BRACKET]

  /**
   * For malformed files chunking does matter: if a byte that is not whitespace
   * follows the closing bracket, the last record is delivered when the bracket
   * arrives before that byte, and withheld when they arrive together.
   */
  lemma {:induction false} ChunkingMattersBehindTheEnd(garbage: Byte)
    requires !IsSpace(garbage)
    ensures var early, late := ParseFile(ONE_RECORD, 2), ParseFile(ONE_RECORD + [garbage], 2);
            && early.records == late.records && |early.records| == 1
            && Judge(early, 0) == Deliver(early.records[0])
            && Judge(late, 0) == Withhold(Invalid)
            && !EndsInGarbage(early) && EndsInGarbage(late)
  {
    hide FirstFrame;
    PrintedObjectIsObject([], []);
    var item := Item([], JsonPrinter.Print(JObject([], [])), []);
    assert ONE_RECORD[1..] == item.Bytes() + [CLOSE_BRACKET] + [];
    assert (ONE_RECORD + [garbage])[1..] == item.Bytes() + [CLOSE_BRACKET] + [garbage];
    WholeItemIsFound(item, true, [], 1, false, 2);
    WholeItemIsFound(item, true, [garbage], 1, false, 2);
    assert (ONE_RECORD + [garbage])[1..][item.Size()] == garbage;
  }
}
