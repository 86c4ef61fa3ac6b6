/**
 * The incremental framer of one report file. Bytes arrive in any chunks; a record
 * is handed out by Next and stays pending until Commit. Whatever the chunks and
 * the interleaving, Next answers what the parse of all bytes fed so far says.
 */
module Decoders {
  import opened Wrappers
  import opened Bytes
  import opened JsonScanner
  import opened Framing

  /** A record waiting for its commit. */
  datatype Issued = Issued(record: Record, token: nat)

  datatype NextResult = Ready(issued: Issued) | Refused(tail: Tail)

  datatype AppendResult = Appended | OffsetMismatch | DataAfterClose

  /** The answer that a parse of the whole file gives after k records. */
  datatype Verdict = Deliver(record: Record) | Withhold(tail: Tail)

  /**
   * The closing record is withheld when its bracket is followed by anything but
   * whitespace; every other complete record is delivered.
   */
  function Judge(p: Parse, k: nat): Verdict {
    if k < |p.records| && !(p.records[k].closes && p.tail == Invalid) then Deliver(p.records[k])
    else Withhold(p.tail)
  }

  /** The verdict on the record that comes after those delivered, read off the bytes behind them. */
  lemma {:induction false} JudgeNext(delivered: seq<Record>, s: seq<Byte>, base: nat, seen: bool, max: nat)
    ensures var p := Prepend(delivered, ParseItems(s, base, seen, max));
            match FirstFrame(s, base, seen, max)
            case Stop(tail) =>
              && Judge(p, |delivered|) == Withhold(tail)
              && p.boundary == if tail == Closed then base + |s| else base
            case Found(record, n) =>
              if record.closes && !AllSpace(s, n) then Judge(p, |delivered|) == Withhold(Invalid) && p.boundary == base
              else Judge(p, |delivered|) == Deliver(record)
  {
    hide FirstFrame;
  }

  class Decoder {
    const maxRecordBytes: nat
    var buffer: seq<Byte>
    var committed: nat
    var arrayOpened: bool
    var closed: bool
    var recordsSeen: bool
    var pending: Option<Issued>
    var nextToken: nat

    /** Every byte appended so far, and every record committed so far. */
    ghost var fed: seq<Byte>
    ghost var delivered: seq<Record>

    ghost function Stage(): Stage
      reads this
    {
      if closed then Ended else if arrayOpened then Inside(recordsSeen) else Unopened
    }

    ghost function Parsed(): Parse
      reads this
    {
      ParseFile(fed, maxRecordBytes)
    }

    ghost predicate Valid()
      reads this
    {
      && 0 < maxRecordBytes
      && committed + |buffer| == |fed|
      && buffer == fed[committed..]
      && Reached(fed[..committed], delivered, Stage(), maxRecordBytes)
      && (closed ==> buffer == [] && pending == None)
      && (!arrayOpened ==> !closed && !recordsSeen && pending == None)
      && (forall i :: 0 <= i < |delivered| ==> delivered[i].end <= committed)
      && (pending.Some? ==> PendingIsNext())
    }

    /** The pending record is the first one in the buffer, and may be committed. */
    ghost predicate PendingIsNext()
      requires pending.Some?
      reads this
    {
      var f := FirstFrame(buffer, committed, recordsSeen, maxRecordBytes);
      && f.Found?
      && f.record == pending.value.record
      && (f.record.closes ==> AllSpace(buffer, f.length))
    }

    constructor (maxRecordBytes: nat)
      requires 0 < maxRecordBytes
      ensures Valid() && fed == [] && delivered == [] && pending == None
      ensures this.maxRecordBytes == maxRecordBytes
      ensures !closed && committed == 0
    {
      this.maxRecordBytes := maxRecordBytes;
      buffer, committed := [], 0;
      arrayOpened, closed, recordsSeen := false, false, false;
      pending, nextToken := None, 0;
      fed, delivered := [], [];
    }

    /** Creating a decoder fails exactly for limits that are not positive. */
    static method New(maxRecordBytes: int) returns (d: Decoder?)
      ensures d == null <==> maxRecordBytes <= 0
      ensures d != null ==> fresh(d) && d.Valid() && d.fed == [] && d.delivered == [] && d.pending == None
      ensures d != null ==> d.maxRecordBytes == maxRecordBytes && !d.closed && d.committed == 0
    {
      if maxRecordBytes <= 0 {
        return null;
      }
      d := new Decoder(maxRecordBytes);
    }

    function ReadOffset(): nat
      reads this
    {
      committed + |buffer|
    }

    /** Only whitespace may follow the closing bracket, committed or pending. */
    predicate Refuses(data: seq<Byte>)
      reads this
    {
      (closed || (pending.Some? && pending.value.record.closes)) && !AllSpace(data, 0)
    }

    // ---- What validity means for the whole file ----

    /** The parse of everything fed is what was delivered and what the buffer holds. */
    lemma ParsedSplits()
      requires Valid()
      ensures match Stage()
              case Unopened => delivered == [] && buffer == fed && committed == 0
              case Inside(seen) =>
                Parsed() == Prepend(delivered, ParseItems(buffer, committed, seen, maxRecordBytes))
              case Ended => Parsed() == Parse(delivered, Closed, committed)
    {
      hide ParseItems, ParseFile;
      assert fed == fed[..committed] + buffer;
      if Stage().Ended? {
        assert EndedWith(ParseFile(fed[..committed] + [], maxRecordBytes), delivered, [], committed);
        assert fed[..committed] + [] == fed;
      }
    }

    /**
     * In every reachable state the committed records are the first records of the
     * file, all before the committed offset, and all others lie behind it.
     */
    lemma DeliveredIsPrefix()
      requires Valid()
      ensures delivered <= Parsed().records
      ensures forall i :: 0 <= i < |delivered| ==> delivered[i].end <= committed
      ensures InOrder(Parsed().records[|delivered|..], fed, committed)
      ensures pending.Some? ==> |delivered| < |Parsed().records|
                                && Parsed().records[|delivered|] == pending.value.record
    {
      hide ParseFile;
      ParsedSplits();
      assert fed == fed[..committed] + buffer;
      if Stage().Inside? {
        ItemsInOrder(fed[..committed], buffer, recordsSeen, maxRecordBytes);
        assert Parsed().records[|delivered|..] == ParseItems(buffer, committed, recordsSeen, maxRecordBytes).records;
      } else if Stage().Unopened? {
        RecordsInOrder(fed, maxRecordBytes);
        assert Parsed().records[0..] == Parsed().records;
      }
    }

    /** The committed records are those of the committed bytes, whatever was read beyond them. */
    lemma CommittedIsParsed()
      requires Valid()
      ensures delivered == ParseFile(fed[..committed], maxRecordBytes).records
      ensures !closed ==> ParseFile(fed[..committed], maxRecordBytes).tail == NeedMore
    {
      var consumed := fed[..committed];
      assert consumed + [] == consumed;
      match Stage()
      case Unopened =>
      case Inside(seen) =>
        assert ParseFile(consumed + [], maxRecordBytes)
            == Prepend(delivered, ParseItems([], committed, seen, maxRecordBytes));
      case Ended =>
        assert EndedWith(ParseFile(consumed + [], maxRecordBytes), delivered, [], committed);
    }

    /**
     * A decoder that was fed all its bytes and has nothing more to deliver has
     * delivered every record of them, unless something other than whitespace follows
     * the closing bracket; then it has delivered all but the last.
     */
    lemma {:induction false} ExhaustedIsExact()
      requires Valid() && Judge(Parsed(), |delivered|).Withhold?
      ensures delivered == Parsed().records <==> !EndsInGarbage(Parsed())
      ensures EndsInGarbage(Parsed()) ==> delivered == Parsed().records[..|Parsed().records| - 1]
    {
      hide ParseFile;
      DeliveredIsPrefix();
      ClosingEndsReport(fed, maxRecordBytes);
      if EndsInGarbage(Parsed()) && delivered == Parsed().records {
        ParsedSplits();
        CommittedIsParsed();
        ClosingEndsReport(fed[..committed], maxRecordBytes);
        assert false;
      }
    }

    /** A refused chunk shows that the file is invalid behind the closing bracket, and has no further record. */
    lemma {:induction false} RefusedIsInvalid(data: seq<Byte>, more: seq<Byte>)
      requires Valid() && Refuses(data)
      ensures var p := ParseFile(fed + data + more, maxRecordBytes);
              && p.tail == Invalid
              && p.records == delivered + if pending.Some? then [pending.value.record] else []
    {
      hide ParseItems, ParseFile, FirstFrame;
      var rest := data + more;
      SpacesExtend(data, more, 0);
      assert fed + data + more == fed[..committed] + (buffer + rest);
      if closed {
        assert buffer + rest == rest;
        assert EndedWith(ParseFile(fed[..committed] + rest, maxRecordBytes), delivered, rest, committed);
      } else {
        PendingThenGarbage(rest);
      }
    }

    lemma {:induction false} PendingThenGarbage(rest: seq<Byte>)
      requires Valid() && !closed && pending.Some? && pending.value.record.closes && !AllSpace(rest, 0)
      ensures ParseItems(buffer + rest, committed, recordsSeen, maxRecordBytes)
           == Parse([pending.value.record], Invalid, committed)
    {
      hide ParseFile, FirstFrame, Reached;
      var n := FirstFrame(buffer, committed, recordsSeen, maxRecordBytes).length;
      FrameIsStable(buffer, buffer[n..] + rest, committed, recordsSeen, maxRecordBytes);
      Rejoin(buffer, n, rest);
      SpacesExtend(buffer, rest, n);
    }

    /** All bytes of the file have been offered: accepted, or refused behind the closing bracket. */
    ghost predicate Offered(file: seq<Byte>)
      reads this
    {
      fed <= file && (fed == file || Refuses(file[|fed|..]))
    }

    /**
     * What a decoder delivers of a file that it was offered completely, in whatever
     * chunks: every record, unless something other than whitespace follows the closing
     * bracket and arrived before the last record was committed; then all but the last.
     */
    lemma {:induction false} OfferedIsExact(file: seq<Byte>)
      requires Valid() && Offered(file) && Judge(Parsed(), |delivered|).Withhold?
      ensures var p := ParseFile(file, maxRecordBytes);
              && (delivered == p.records <==> !EndsInGarbage(p) || closed)
              && (EndsInGarbage(p) && !closed ==> delivered == p.records[..|p.records| - 1])
    {
      hide ParseFile, FirstFrame, ParseItems, Reached;
      if fed == file {
        ExhaustedIsExact();
        ParsedSplits();
      } else {
        var rest := file[|fed|..];
        assert fed + rest + [] == file;
        RefusedIsInvalid(rest, []);
        if !closed {
          PendingIsDelivered();
          assert false;
        }
      }
    }

    /** While a record is pending, it is the verdict. */
    lemma PendingIsDelivered()
      requires Valid() && pending.Some?
      ensures Judge(Parsed(), |delivered|) == Deliver(pending.value.record)
    {
      hide FirstFrame, ParseFile, ParseItems, Reached;
      ParsedSplits();
      JudgeNext(delivered, buffer, committed, recordsSeen, maxRecordBytes);
    }

    // ---- Append ----

    /**
     * Accepts exactly the next bytes of the file. After the closing bracket only
     * whitespace is accepted, and it is committed at once.
     */
    method Append(offset: nat, data: seq<Byte>) returns (r: AppendResult)
      requires Valid()
      modifies this
      ensures Valid()
      ensures delivered == old(delivered) && pending == old(pending) && closed == old(closed)
      ensures r == if offset != |old(fed)| then OffsetMismatch
                   else if old(Refuses(data)) then DataAfterClose
                   else Appended
      ensures fed == if r == Appended then old(fed) + data else old(fed)
      ensures r != Appended ==> committed == old(committed) && buffer == old(buffer)
      ensures r == Appended && old(closed) ==> committed == |fed|
      ensures r == Appended && !old(closed) ==> committed == old(committed) && buffer == old(buffer) + data
      ensures r == Appended && !old(closed) ==> arrayOpened == old(arrayOpened) && recordsSeen == old(recordsSeen)
    {
      hide FirstFrame;
      if offset != ReadOffset() {
        return OffsetMismatch;
      }
      if closed {
        if !AllSpace(data, 0) {
          return DataAfterClose;
        }
        ReachPastEnd(fed[..committed], delivered, data, maxRecordBytes);
        assert fed[..committed] == fed;
        committed := committed + |data|;
        fed := fed + data;
        assert fed[..committed] == fed && fed[committed..] == [];
        return Appended;
      }
      if pending.Some? && pending.value.record.closes && !AllSpace(data, 0) {
        return DataAfterClose;
      }
      if pending.Some? {
        var n := FirstFrame(buffer, committed, recordsSeen, maxRecordBytes).length;
        FrameIsStable(buffer, buffer[n..] + data, committed, recordsSeen, maxRecordBytes);
        Rejoin(buffer, n, data);
        SpacesExtend(buffer, data, n);
      }
      assert (fed + data)[..committed] == fed[..committed];
      assert (fed + data)[committed..] == buffer + data;
      buffer := buffer + data;
      fed := fed + data;
      r := Appended;
    }

    // ---- Next ----

    static method SkipWhitespace(data: seq<Byte>, from: nat) returns (start: nat)
      requires from <= |data|
      ensures start == SkipSpaces(data, from)
    {
      start := from;
      while start < |data| && IsSpace(data[start])
        invariant from <= start <= |data|
        invariant SkipSpaces(data, start) == SkipSpaces(data, from)
      {
        start := start + 1;
      }
    }

    method ConsumeStructuralBytes(count: nat)
      requires count <= |buffer| && committed + |buffer| == |fed| && buffer == fed[committed..]
      modifies this`buffer, this`committed
      ensures committed == old(committed) + count && buffer == old(buffer)[count..]
      ensures committed + |buffer| == |fed| && buffer == fed[committed..]
    {
      buffer := buffer[count..];
      committed := committed + count;
    }

    /** None when the bracket has been consumed, otherwise the reason it was not. */
    method ConsumeOpeningBracket() returns (refusal: Option<Tail>)
      requires Valid() && !arrayOpened
      modifies this`buffer, this`committed, this`arrayOpened
      ensures Valid()
      ensures refusal == None ==> arrayOpened
      ensures refusal != Some(Closed)
      ensures refusal == Some(NeedMore) ==> AllSpace(buffer, 0)
      ensures |buffer| <= |old(buffer)|
      ensures refusal.Some? ==> !arrayOpened && committed == 0 && Parsed() == Parse([], refusal.value, 0)
    {
      hide FirstFrame, ParseItems;
      ParsedSplits();
      var start := SkipWhitespace(buffer, 0);
      if start == |buffer| {
        return Some(NeedMore);
      }
      if buffer[start] != OPEN_BRACKET {
        return Some(Invalid);
      }
      ReachOpening(fed, maxRecordBytes);
      ConsumeStructuralBytes(start + 1);
      arrayOpened := true;
      return None;
    }

    /**
     * The object at `start`, if it is complete and within the limit. Otherwise no
     * object can start there, whatever bytes follow (invalid); or none within the
     * limit can (too large); or less than the limit is there and no object yet.
     */
    method DecodeObject(start: nat) returns (end: nat, refusal: Option<Tail>)
      requires start < |buffer| && buffer[start] == OPEN_BRACE
      ensures refusal == None ==> HoldsObject(buffer, start, end) && end - start <= maxRecordBytes
      ensures refusal == Some(Invalid) ==> NeverObject(buffer, start)
      ensures refusal == Some(TooLarge) ==>
                |buffer| - start > maxRecordBytes && NeverWithin(buffer, start, maxRecordBytes)
      ensures refusal == Some(NeedMore) ==>
                |buffer| - start <= maxRecordBytes && forall e: nat :: !HoldsObject(buffer, start, e)
      ensures refusal != Some(Closed)
      ensures refusal.Some? && start == SkipSpaces(buffer, 0) ==>
                forall base, seen :: FirstFrame(buffer, base, seen, maxRecordBytes) == Stop(refusal.value)
    {
      hide HoldsObject, NeverObject, NeverWithin;
      end := 0;
      var o := ScanObject(buffer, start);
      if o.Incomplete? || (o.Malformed? && o.at + 1 >= |buffer|) {
        if |buffer| - start > maxRecordBytes {
          OversizeIsFinal(buffer, start, maxRecordBytes);
          return end, Some(TooLarge);
        }
        NoObjectYet(buffer, start);
        return end, Some(NeedMore);
      }
      if o.Malformed? {
        MalformedIsFinal(buffer, start);
        return end, Some(Invalid);
      }
      if o.end - start > maxRecordBytes {
        OversizeIsFinal(buffer, start, maxRecordBytes);
        return end, Some(TooLarge);
      }
      ScannedIsObject(buffer, start);
      return o.end, None;
    }

    /** Consumes the rest of a report that has no record. */
    method CloseEmpty()
      requires Valid() && arrayOpened && !closed && pending == None
      requires FirstFrame(buffer, committed, recordsSeen, maxRecordBytes) == Stop(Closed)
      modifies this`buffer, this`committed, this`closed
      ensures Valid() && closed && committed == |fed|
    {
      hide ParseItems, ParseFile, Reached, FirstFrame;
      ReachEmptyEnd(fed[..committed], delivered, buffer, recordsSeen, maxRecordBytes);
      assert fed[..committed] + buffer == fed == fed[..|fed|];
      ConsumeStructuralBytes(|buffer|);
      closed := true;
    }

    /** The first record in the buffer of an opened report, if it may be delivered. */
    method FrameRecord() returns (r: NextResult)
      requires Valid() && arrayOpened && !closed && pending == None
      modifies this
      ensures Valid() && fed == old(fed) && delivered == old(delivered)
      ensures match FirstFrame(old(buffer), old(committed), old(recordsSeen), maxRecordBytes)
              case Stop(tail) => r == Refused(tail) && pending == None && closed == (tail == Closed)
                                 && committed == (if tail == Closed then |fed| else old(committed))
              case Found(record, n) =>
                && committed == old(committed) && buffer == old(buffer) && !closed
                && if record.closes && !AllSpace(old(buffer), n)
                   then r == Refused(Invalid) && pending == None
                   else r.Ready? && r.issued.record == record && pending == Some(r.issued)
      ensures closed || buffer == old(buffer)
    {
      hide ParseItems, ParseFile, ScanObject, Reached, HoldsObject;
      var start := SkipWhitespace(buffer, 0);
      if start == |buffer| {
        return Refused(NeedMore);
      }
      if buffer[start] == CLOSE_BRACKET {
        if recordsSeen {
          return Refused(Invalid);
        }
        if !AllSpace(buffer, start + 1) {
          return Refused(Invalid);
        }
        CloseEmpty();
        return Refused(Closed);
      }
      if buffer[start] != OPEN_BRACE {
        return Refused(Invalid);
      }
      var end, refusal := DecodeObject(start);
      if refusal.Some? {
        return Refused(refusal.value);
      }
      ObjectIsScanned(buffer, start, end);
      var delimiter := SkipWhitespace(buffer, end);
      if delimiter == |buffer| {
        return Refused(NeedMore);
      }
      if buffer[delimiter] != COMMA && buffer[delimiter] != CLOSE_BRACKET {
        return Refused(Invalid);
      }
      if buffer[delimiter] == CLOSE_BRACKET && !AllSpace(buffer, delimiter + 1) {
        return Refused(Invalid);
      }
      nextToken := nextToken + 1;
      var record := Record(buffer[start..end], committed + start, committed + delimiter + 1,
                           Sha256(buffer[start..end]), buffer[delimiter] == CLOSE_BRACKET);
      pending := Some(Issued(record, nextToken));
      return Ready(pending.value);
    }

    /** What the parse of everything fed says of an opened report, read off its buffer. */
    lemma {:induction false} VerdictHere()
      requires Valid() && arrayOpened && !closed
      ensures match FirstFrame(buffer, committed, recordsSeen, maxRecordBytes)
              case Stop(tail) =>
                && Judge(Parsed(), |delivered|) == Withhold(tail)
                && Parsed().boundary == if tail == Closed then |fed| else committed
              case Found(record, n) =>
                if record.closes && !AllSpace(buffer, n)
                then Judge(Parsed(), |delivered|) == Withhold(Invalid) && Parsed().boundary == committed
                else Judge(Parsed(), |delivered|) == Deliver(record)
      ensures FirstFrame(buffer, committed, recordsSeen, maxRecordBytes) == Stop(NeedMore) ==>
                OneSpan(buffer, maxRecordBytes)
    {
      hide FirstFrame, ParseFile, ParseItems, Reached, OneSpan;
      ParsedSplits();
      JudgeNext(delivered, buffer, committed, recordsSeen, maxRecordBytes);
      if FirstFrame(buffer, committed, recordsSeen, maxRecordBytes) == Stop(NeedMore) {
        WaitingIsBounded(buffer, committed, recordsSeen, maxRecordBytes);
      }
    }

    /** The verdicts that are known without looking into the buffer. */
    lemma {:induction false} VerdictKnown()
      requires Valid()
      ensures pending.Some? ==> Judge(Parsed(), |delivered|) == Deliver(pending.value.record)
      ensures closed ==> Judge(Parsed(), |delivered|) == Withhold(Closed) && Parsed().boundary == committed
    {
      hide FirstFrame, ParseFile, ParseItems, Reached;
      ParsedSplits();
      if pending.Some? {
        PendingIsDelivered();
      }
    }

    /**
     * The next record, exactly as the parse of all bytes fed so far has it: the
     * answer does not depend on how those bytes were cut into chunks, on earlier
     * calls of Next, or on when records were committed.
     */
    method Next() returns (r: NextResult)
      requires Valid()
      modifies this
      ensures Valid()
      ensures fed == old(fed) && delivered == old(delivered)
      ensures r.Ready? ==> pending == Some(r.issued) && Judge(Parsed(), |delivered|) == Deliver(r.issued.record)
      ensures r.Refused? ==> pending == None && Judge(Parsed(), |delivered|) == Withhold(r.tail)
      ensures r.Refused? ==> committed == Parsed().boundary && (closed <==> r.tail == Closed)
      ensures r == Refused(NeedMore) ==> OneSpan(buffer, maxRecordBytes)
      ensures old(pending).Some? ==> r == Ready(old(pending).value)
      ensures committed >= old(committed) && |buffer| <= |old(buffer)| && (old(closed) ==> closed)
    {
      hide FirstFrame, ParseFile, ParseItems, Reached, ScanObject, OneSpan, Judge;
      VerdictKnown();
      if pending.Some? {
        return Ready(pending.value);
      }
      if closed {
        return Refused(Closed);
      }
      if !arrayOpened {
        var refusal := ConsumeOpeningBracket();
        if refusal.Some? {
          NothingDelivered(refusal.value);
          return Refused(refusal.value);
        }
      }
      VerdictHere();
      r := FrameRecord();
    }

    /** The verdict on a report that has not been opened. */
    lemma NothingDelivered(tail: Tail)
      requires Valid() && Parsed() == Parse([], tail, 0) && (tail == NeedMore ==> AllSpace(buffer, 0))
      ensures Judge(Parsed(), |delivered|) == Withhold(tail)
      ensures tail == NeedMore ==> OneSpan(buffer, maxRecordBytes)
    {
      hide FirstFrame, ParseFile, ParseItems, Reached;
      assert tail == NeedMore ==> SpanAt(buffer, 0, 0, maxRecordBytes);
    }

    // ---- Commit ----

    /** Moves the boundary past the pending record, and past the file's end once it is closed. */
    method Commit(issued: Issued) returns (ok: bool)
      requires Valid()
      modifies this
      ensures Valid() && fed == old(fed)
      ensures ok <==> old(pending).Some? && issued.token == old(pending).value.token
                      && issued.record.end == old(pending).value.record.end
      ensures ok ==> delivered == old(delivered) + [old(pending).value.record] && pending == None
      ensures ok ==> committed == if old(pending).value.record.closes then |fed| else old(pending).value.record.end
      ensures ok ==> closed == old(pending).value.record.closes && committed > old(committed)
      ensures ok ==> |buffer| < |old(buffer)|
      ensures !ok ==> delivered == old(delivered) && pending == old(pending) && closed == old(closed)
      ensures !ok ==> committed == old(committed) && buffer == old(buffer)
    {
      hide FirstFrame, ParseFile, ParseItems;
      if pending == None || issued.token != pending.value.token
         || issued.record.end != pending.value.record.end {
        return false;
      }
      ghost var f := FirstFrame(buffer, committed, recordsSeen, maxRecordBytes);
      ghost var before := fed[..committed];
      assert fed == before + buffer;
      if f.record.closes {
        ReachEnd(before, delivered, buffer, recordsSeen, maxRecordBytes);
        assert fed[..|fed|] == fed;
      } else {
        ReachNext(before, delivered, buffer, recordsSeen, maxRecordBytes);
        assert before + buffer[..f.length] == fed[..committed + f.length];
      }
      var consumed := pending.value.record.end - committed;
      buffer := buffer[consumed..];
      committed := pending.value.record.end;
      closed := pending.value.record.closes;
      recordsSeen := true;
      delivered := delivered + [pending.value.record];
      pending := None;
      if closed {
        ConsumeStructuralBytes(|buffer|);
      }
      return true;
    }
  }
}
