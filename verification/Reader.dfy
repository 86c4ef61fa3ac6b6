/**
 * One report generation: its descriptor, its decoder, and the loop that applies
 * every record that is complete so far while the writer goes on appending.
 */
module Readers {
  import opened Wrappers
  import opened Bytes
  import opened Framing
  import opened Measurements
  import opened Ordering
  import opened Decoders
  import opened Worlds
  import opened Processing
  import opened Progress

  datatype Error =
    | ErrApply | ErrInvalidCommit | ErrInvalidFraming | ErrRecordTooLarge | ErrAppend | ErrOsClosed
    | ErrInspect | ErrGenerationTruncated | ErrRead | ErrScan | ErrWatcher | ErrWatcherInvalidated
    | ErrCanceled | ErrDeadlineExceeded | ErrOptions | ErrPipeline | ErrIdentity

  const READ_BUFFER_BYTES: nat := 64 * 1024

  datatype DrainResult = DrainResult(records: nat, bytes: nat, closed: bool)

  datatype Watermark = Watermark(
    generation: GenerationID, committedOffset: nat, lastFingerprint: Option<Digest>, closed: bool)

  /** The fingerprint of the last record. */
  function LastDigest(records: seq<Record>): Option<Digest> {
    if records == [] then None else Some(records[|records| - 1].fingerprint)
  }

  /** The report itself is to blame: it is malformed, or an object in it is too large. */
  predicate IsBroken(error: Option<Error>) {
    error == Some(ErrInvalidFraming) || error == Some(ErrRecordTooLarge)
  }

  /** The error comes from the drain that was lost, if any was, and says whether its report is to blame. */
  predicate Blames(error: Option<Error>, lost: Lost) {
    if lost.failure.Some? then error.Some? && lost.failure.value.broken == IsBroken(error) else !IsBroken(error)
  }

  /** What a drain may end with. */
  predicate StopsDrain(error: Option<Error>) {
    error.Some? ==> error.value.ErrApply? || error.value.ErrInspect? || error.value.ErrRead?
                    || error.value.ErrOsClosed? || IsBroken(error)
  }

  /** What an error that comes from outside must have been caused by. */
  predicate Causes(incident: Incident, error: Error) {
    match error
    case ErrApply => incident.CallFailed? || incident.RecordRefused?
    case ErrScan => incident.CallFailed? || incident.StaleReport?
    case ErrWatcherInvalidated => incident.CallFailed? || incident.WatchLost?
    case _ => incident.CallFailed?
  }

  /** Errors that only something outside the exporter can cause. */
  predicate IsOutside(error: Option<Error>) {
    error.Some? && (error.value.ErrApply? || error.value.ErrScan? || error.value.ErrInspect? || error.value.ErrRead?
                    || error.value.ErrWatcher? || error.value.ErrWatcherInvalidated? || error.value.ErrPipeline?
                    || error.value.ErrIdentity?)
  }

  /**
   * Every incident ends what is going on and is reported, and nothing is reported that
   * did not happen: with an error from outside exactly one incident has happened, which
   * causes it; otherwise none has.
   */
  ghost predicate Reported(error: Option<Error>, before: seq<Incident>, after: seq<Incident>) {
    if IsOutside(error) then
      |after| == |before| + 1 && after[..|before|] == before && Causes(after[|before|], error.value)
    else after == before
  }

  lemma NothingReported(error: Option<Error>, log: seq<Incident>)
    requires !IsOutside(error)
    ensures Reported(error, log, log)
  {
  }

  lemma InsideToo(error: Option<Error>, before: seq<Incident>, after: seq<Incident>)
    requires Reported(None, before, after) && !IsOutside(error)
    ensures Reported(error, before, after)
  {
  }

  /** After what went without an error, the next one is reported as it is. */
  lemma ReportedOn(error: Option<Error>, a: seq<Incident>, b: seq<Incident>, c: seq<Incident>)
    requires Reported(None, a, b) && Reported(error, b, c)
    ensures Reported(error, a, c)
  {
  }

  class GenerationReader {
    const report: ReportFile
    const decoder: Decoder
    var rotation: nat
    var lastFingerprint: Option<Digest>

    function Generation(): GenerationID {
      report.generation
    }

    /**
     * However the file was cut into reads, the bytes held back are whitespace apart
     * from one span within the limit, and one read behind them.
     */
    ghost predicate Valid()
      reads this`lastFingerprint, decoder
    {
      && decoder.Valid()
      && SpanThenRead(decoder.buffer, decoder.maxRecordBytes, READ_BUFFER_BYTES)
      && lastFingerprint == LastDigest(decoder.delivered)
    }

    /** The bytes read so far are the first bytes of the file. */
    ghost predicate Follows(w: World)
      reads decoder
    {
      Generation() in w.files && decoder.fed <= w.files[Generation()]
    }

    ghost function GetView(): View
      reads decoder
    {
      View(decoder.fed, decoder.delivered, decoder.committed, decoder.closed, decoder.pending.Some?)
    }

    constructor (discovered: ReportFile, rotation: nat, maxRecordBytes: nat)
      requires 0 < maxRecordBytes
      ensures Valid() && fresh(decoder) && report == discovered && this.rotation == rotation
      ensures GetView() == BLANK && decoder.maxRecordBytes == maxRecordBytes
    {
      report := discovered;
      decoder := new Decoder(maxRecordBytes);
      this.rotation := rotation;
      lastFingerprint := None;
      new;
      NothingHeld(maxRecordBytes, READ_BUFFER_BYTES);
    }

    function GetWatermark(): Watermark
      reads this, decoder
    {
      Watermark(Generation(), decoder.committed, lastFingerprint, decoder.closed)
    }

    /** A closed report has no further records, whatever is appended to its file. */
    lemma ClosedIsFinal(file: seq<Byte>)
      requires decoder.Valid() && decoder.closed && decoder.fed <= file
      ensures ParseFile(file, decoder.maxRecordBytes).records == decoder.delivered
    {
      hide ParseFile;
      var rest := file[|decoder.fed|..];
      assert decoder.fed[..decoder.committed] == decoder.fed;
      assert file == decoder.fed + rest;
      assert EndedWith(ParseFile(decoder.fed + rest, decoder.maxRecordBytes), decoder.delivered, rest,
                       decoder.committed);
    }

    /** When the decoder withholds without an error, everything complete has been delivered. */
    lemma NothingLeft(tail: Tail)
      requires decoder.Valid()
      requires Judge(decoder.Parsed(), |decoder.delivered|) == Withhold(tail) && tail != Invalid
      ensures decoder.delivered == decoder.Parsed().records
    {
      hide ParseFile;
      decoder.DeliveredIsPrefix();
    }

    lemma StuckHere(tail: Tail)
      requires decoder.Valid() && IsFinal(tail) && !decoder.closed
      requires Judge(decoder.Parsed(), |decoder.delivered|) == Withhold(tail)
      ensures Stuck(GetView(), decoder.maxRecordBytes)
    {
      hide ParseFile, Reached, FirstFrame;
      decoder.DeliveredIsPrefix();
      decoder.CommittedIsParsed();
      ClosingEndsReport(decoder.fed[..decoder.committed], decoder.maxRecordBytes);
    }

    lemma BreaksHere(begin: View)
      requires Stuck(GetView(), decoder.maxRecordBytes)
      requires IsFinal(ParseFile(begin.fed, decoder.maxRecordBytes).tail) ==> decoder.fed == begin.fed
      ensures Breaks(begin, GetView(), decoder.maxRecordBytes)
    {
      hide ParseFile, Stuck, IsFinal;
    }

    lemma NeedMoreGoesOn()
      requires decoder.Parsed().tail == NeedMore
      ensures !IsFinal(ParseFile(decoder.fed, decoder.maxRecordBytes).tail)
    {
      hide ParseFile;
    }

    /** The writer may take steps; the bytes already read stay where they are. */
    method Await(env: Environment, ghost start: World, ghost steps: seq<WriterStep>)
      requires env.Valid() && Follows(env.world) && Evolved(start, env.world)
      requires Rests(start, steps, env.world, env.schedule)
      modifies env`world, env`schedule
      ensures env.Valid() && Follows(env.world) && Evolved(start, env.world)
      ensures Rests(start, steps, env.world, env.schedule)
      ensures old(env.world).files.Keys <= env.world.files.Keys
      ensures |old(env.world).files[Generation()]| <= |env.world.files[Generation()]|
      ensures |env.schedule| <= |old(env.schedule)|
      ensures |env.schedule| == |old(env.schedule)| ==> env.world == old(env.world)
    {
      env.Interfere();
      EvolvedTransitive(start, old(env.world), env.world);
    }

    /** Consuming bytes keeps the bound on those held back. */
    lemma Drops(held: seq<Byte>, from: nat)
      requires decoder.Valid() && from <= decoder.committed
      requires from + |held| == |decoder.fed| && held == decoder.fed[from..]
      requires SpanThenRead(held, decoder.maxRecordBytes, READ_BUFFER_BYTES)
      ensures SpanThenRead(decoder.buffer, decoder.maxRecordBytes, READ_BUFFER_BYTES)
    {
      SpanThenReadDrops(held, decoder.maxRecordBytes, READ_BUFFER_BYTES, decoder.committed - from);
      assert decoder.buffer == held[decoder.committed - from..];
    }

    /** Hands a record to the handler and commits it; a refused record stays pending. */
    method ApplyIssued(issued: Issued, handler: RecordHandler, mode: RecordMode, incidents: Incidents)
      returns (error: Option<Error>)
      requires Valid() && handler.Valid() && decoder.pending == Some(issued)
      modifies this`lastFingerprint, decoder, incidents
      modifies handler, handler.processor, handler.processor.state
      ensures Valid() && handler.Valid()
      ensures error in {None, Some(ErrApply)} && Reported(error, old(incidents.log), incidents.log)
      ensures var accepted := if error == None then [issued.record] else [];
              && decoder.delivered == old(decoder.delivered) + accepted
              && handler.log == old(handler.log) + Calls(mode, Generation(), accepted)
      ensures decoder.fed == old(decoder.fed)
      ensures old(decoder.committed) <= decoder.committed && (old(decoder.closed) ==> decoder.closed)
      ensures |decoder.buffer| <= |old(decoder.buffer)|
      ensures if error == None then |decoder.buffer| < |old(decoder.buffer)| else decoder.pending.Some?
      ensures handler.processor.unseen == old(handler.processor.unseen)
      ensures handler.processor.observed == old(handler.processor.observed)
    {
      hide ParseFile, Reached, FirstFrame, Calls, RecordHandler.Valid, SpanThenRead;
      CallsAppend(mode, Generation(), [], issued.record);
      assert [] + [issued.record] == [issued.record];
      var ok := handler.Handle(mode, issued.record, Generation(), incidents);
      if !ok {
        return Some(ErrApply);
      }
      ghost var from, held := decoder.committed, decoder.buffer;
      var committed := decoder.Commit(issued);
      if !committed {
        return Some(ErrInvalidCommit);
      }
      Drops(held, from);
      lastFingerprint := Some(issued.record.fingerprint);
      return None;
    }

    /** The decoder has no record to hand out, and the tail of all bytes read says why. */
    ghost predicate HasNone(tail: Tail)
      requires decoder.Valid()
      reads decoder
    {
      && decoder.pending == None && (decoder.closed <==> tail == Closed)
      && decoder.committed == decoder.Parsed().boundary && decoder.Parsed().tail == tail
      && (IsFinal(tail) ==> Stuck(GetView(), decoder.maxRecordBytes))
      && (tail == NeedMore || tail == Closed ==> decoder.delivered == decoder.Parsed().records)
      && (tail == NeedMore ==> OneSpan(decoder.buffer, decoder.maxRecordBytes))
    }

    /**
     * Asks the decoder for the next record, hands it to the handler and commits it
     * once it is applied. Without a record, `tail` says why there is none.
     */
    method ApplyNext(handler: RecordHandler, mode: RecordMode, incidents: Incidents)
      returns (tail: Option<Tail>, error: Option<Error>)
      requires Valid() && handler.Valid()
      modifies this`lastFingerprint, decoder, incidents
      modifies handler, handler.processor, handler.processor.state
      ensures Valid() && handler.Valid()
      ensures error in {None, Some(ErrApply)} && Reported(error, old(incidents.log), incidents.log)
      ensures Advances(old(GetView()), GetView())
      ensures decoder.fed == old(decoder.fed) && old(decoder.delivered) <= decoder.delivered
      ensures |decoder.delivered| == |old(decoder.delivered)| + if tail == None && error == None then 1 else 0
      ensures handler.log == old(handler.log)
                             + Calls(mode, Generation(), decoder.delivered[|old(decoder.delivered)|..])
      ensures old(decoder.committed) <= decoder.committed && (old(decoder.closed) ==> decoder.closed)
      ensures |decoder.buffer| <= |old(decoder.buffer)|
      ensures tail == None && error == None ==> |decoder.buffer| < |old(decoder.buffer)|
      ensures error.Some? ==> decoder.pending.Some?
      ensures tail.Some? ==> HasNone(tail.value)
      ensures handler.processor.unseen == old(handler.processor.unseen)
      ensures handler.processor.observed == old(handler.processor.observed)
    {
      hide ParseFile, Reached, FirstFrame, Calls, RecordHandler.Valid, OneSpan, SpanThenRead, Reported;
      ghost var before, from, held := decoder.delivered, decoder.committed, decoder.buffer;
      assert before[|before|..] == [];
      var next := decoder.Next();
      Drops(held, from);
      if next.Refused? {
        if next.tail != Invalid {
          NothingLeft(next.tail);
        }
        if IsFinal(next.tail) {
          StuckHere(next.tail);
        }
        NothingReported(None, incidents.log);
        return Some(next.tail), None;
      }
      error := ApplyIssued(next.issued, handler, mode, incidents);
      assert decoder.delivered[|before|..] == if error == None then [next.issued.record] else [];
      return None, error;
    }

    /** Reads on from where the decoder stands; `done` when there is nothing more to read. */
    method ReadMore(env: Environment, ghost start: World, ghost steps: seq<WriterStep>)
      returns (readBytes: nat, done: bool, error: Option<Error>)
      requires Valid() && env.Valid() && Follows(env.world) && Evolved(start, env.world)
      requires Rests(start, steps, env.world, env.schedule)
      requires !decoder.closed && decoder.pending == None && OneSpan(decoder.buffer, decoder.maxRecordBytes)
      modifies decoder, env`world, env`schedule, env.incidents
      ensures Valid() && env.Valid() && Follows(env.world) && Evolved(start, env.world)
      ensures Advances(old(GetView()), GetView())
      ensures decoder.delivered == old(decoder.delivered) && decoder.pending == None && !decoder.closed
      ensures decoder.committed == old(decoder.committed)
      ensures old(decoder.fed) <= decoder.fed && |decoder.fed| == |old(decoder.fed)| + readBytes
      ensures old(decoder.buffer) <= decoder.buffer && readBytes <= READ_BUFFER_BYTES
      ensures |decoder.buffer| == |old(decoder.buffer)| + if error == None then readBytes else 0
      ensures error in {None, Some(ErrOsClosed), Some(ErrInspect), Some(ErrRead)}
      ensures error == Some(ErrOsClosed) <==> !report.isOpen
      ensures Reported(error, old(env.incidents.log), env.incidents.log)
      ensures done ==> error == None && decoder.fed == old(decoder.fed) == env.world.files[Generation()]
      ensures Rests(start, steps, env.world, env.schedule)
      ensures |env.schedule| <= |old(env.schedule)|
      ensures |env.schedule| == |old(env.schedule)| ==> env.world == old(env.world)
      ensures !done && error == None ==> readBytes > 0
    {
      hide Reached, FirstFrame, Evolved, Environment.Valid, ParseFile, OneSpan, SpanThenRead, Rests;
      readBytes, done := 0, false;
      if !report.isOpen {
        return readBytes, done, Some(ErrOsClosed);
      }
      var failed := env.incidents.Strike();
      if failed {
        return readBytes, done, Some(ErrInspect);
      }
      var size := |env.world.files[Generation()]|;
      var readOffset := decoder.ReadOffset();
      if size < readOffset {
        return readBytes, done, Some(ErrGenerationTruncated);
      }
      if size == readOffset {
        return readBytes, true, None;
      }
      var readLength := if size - readOffset > READ_BUFFER_BYTES then READ_BUFFER_BYTES else size - readOffset;
      readBytes, error := ReadAt(env, start, steps, readOffset, readLength);
    }

    /** Reads some of the bytes behind an offset; the writer may go on before it does. */
    method ReadAt(env: Environment, ghost start: World, ghost steps: seq<WriterStep>, readOffset: nat, readLength: nat)
      returns (readBytes: nat, error: Option<Error>)
      requires Valid() && env.Valid() && Follows(env.world) && Evolved(start, env.world)
      requires Rests(start, steps, env.world, env.schedule)
      requires !decoder.closed && decoder.pending == None && OneSpan(decoder.buffer, decoder.maxRecordBytes)
      requires readOffset == |decoder.fed| && 0 < readLength <= READ_BUFFER_BYTES
      requires readOffset + readLength <= |env.world.files[Generation()]|
      modifies decoder, env`world, env`schedule, env.incidents
      ensures Valid() && env.Valid() && Follows(env.world) && Evolved(start, env.world)
      ensures Advances(old(GetView()), GetView())
      ensures decoder.delivered == old(decoder.delivered) && decoder.pending == None && !decoder.closed
      ensures decoder.committed == old(decoder.committed)
      ensures old(decoder.fed) <= decoder.fed && |decoder.fed| == |old(decoder.fed)| + readBytes
      ensures old(decoder.buffer) <= decoder.buffer && readBytes <= READ_BUFFER_BYTES
      ensures |decoder.buffer| == |old(decoder.buffer)| + if error == None then readBytes else 0
      ensures error in {None, Some(ErrRead)} && Reported(error, old(env.incidents.log), env.incidents.log)
      ensures Rests(start, steps, env.world, env.schedule)
      ensures |env.schedule| <= |old(env.schedule)|
      ensures |env.schedule| == |old(env.schedule)| ==> env.world == old(env.world)
      ensures error == None ==> readBytes > 0
    {
      hide Reached, FirstFrame, Evolved, Environment.Valid, ParseFile, OneSpan, SpanThenRead, Rests;
      readBytes := 0;
      Await(env, start, steps);
      var failed := env.incidents.Strike();
      if failed {
        return readBytes, Some(ErrRead);
      }
      readBytes :| 0 < readBytes <= readLength;
      ghost var file := env.world.files[Generation()];
      var data := env.world.files[Generation()][readOffset..readOffset + readBytes];
      assert decoder.fed + data == file[..readOffset + readBytes];
      SpanThenReadFollows(decoder.buffer, data, decoder.maxRecordBytes, READ_BUFFER_BYTES);
      var appended := decoder.Append(readOffset, data);
      if appended != Appended {
        return readBytes, Some(ErrAppend);
      }
      return readBytes, None;
    }

    /** Without a record: the report is at its end, or to blame, or it is read on. */
    method GoOn(tail: Tail, env: Environment, ghost start: World, ghost steps: seq<WriterStep>)
      returns (readBytes: nat, closed: bool, done: bool, error: Option<Error>)
      requires Valid() && env.Valid() && Follows(env.world) && Evolved(start, env.world) && HasNone(tail)
      requires Rests(start, steps, env.world, env.schedule)
      modifies decoder, env`world, env`schedule, env.incidents
      ensures Valid() && env.Valid() && Follows(env.world) && Evolved(start, env.world)
      ensures Advances(old(GetView()), GetView()) && decoder.delivered == old(decoder.delivered)
      ensures |decoder.fed| == |old(decoder.fed)| + readBytes
      ensures done && error == None ==> CaughtUp(GetView(), env.world.files[Generation()], decoder.maxRecordBytes)
      ensures error == None ==> closed == decoder.closed && (closed ==> done)
      ensures error.Some? ==> !closed
      ensures IsFinal(ParseFile(old(decoder.fed), decoder.maxRecordBytes).tail) ==> decoder.fed == old(decoder.fed)
      ensures IsBroken(error) ==> Stuck(GetView(), decoder.maxRecordBytes)
      ensures StopsDrain(error) && error != Some(ErrApply) && (error == Some(ErrOsClosed) ==> !report.isOpen)
      ensures Reported(error, old(env.incidents.log), env.incidents.log)
      ensures Rests(start, steps, env.world, env.schedule)
      ensures |env.schedule| <= |old(env.schedule)|
      ensures |env.schedule| == |old(env.schedule)| ==> env.world == old(env.world)
      ensures !done && error == None ==> readBytes > 0
    {
      hide ParseFile, OneSpan, SpanThenRead, Evolved, Decoder.Valid, Environment.Valid, LastDigest, Stuck, Rests,
           Reported;
      readBytes, closed, done := 0, false, true;
      NothingReported(None, env.incidents.log);
      match tail {
        case Closed =>
          ClosedIsFinal(env.world.files[Generation()]);
          return readBytes, true, done, None;
        case Invalid =>
          InsideToo(Some(ErrInvalidFraming), env.incidents.log, env.incidents.log);
          return readBytes, closed, done, Some(ErrInvalidFraming);
        case TooLarge =>
          InsideToo(Some(ErrRecordTooLarge), env.incidents.log, env.incidents.log);
          return readBytes, closed, done, Some(ErrRecordTooLarge);
        case NeedMore =>
          NeedMoreGoesOn();
      }
      readBytes, done, error := ReadMore(env, start, steps);
    }

    /**
     * Applies all records that are complete. On success every record of the file as
     * it is now has been handled; on any error the records handled so far are
     * committed, and a refused record stays pending for the next attempt. It
     * terminates however the writer's appends are interleaved.
     */
    method Drain(env: Environment, handler: RecordHandler, mode: RecordMode)
      returns (result: DrainResult, error: Option<Error>)
      requires Valid() && env.Valid() && handler.Valid() && Follows(env.world)
      modifies this`lastFingerprint, decoder
      modifies env`world, env`schedule, env.incidents
      modifies handler, handler.processor, handler.processor.state
      ensures Valid() && env.Valid() && handler.Valid() && Follows(env.world)
      ensures Evolved(old(env.world), env.world)
      ensures Drained(old(GetView()), GetView(), old(handler.log), handler.log, mode, Generation(),
                      result.records, result.bytes)
      ensures error == None ==> CaughtUp(GetView(), env.world.files[Generation()], decoder.maxRecordBytes)
      ensures error == None ==> result.closed == decoder.closed
      ensures error == Some(ErrApply) ==> decoder.pending.Some?
      ensures IsBroken(error) ==> Breaks(old(GetView()), GetView(), decoder.maxRecordBytes)
      ensures StopsDrain(error) && (error == Some(ErrOsClosed) ==> !report.isOpen)
      ensures Reported(error, old(env.incidents.log), env.incidents.log)
      ensures Rests(old(env.world), old(env.schedule), env.world, env.schedule)
      ensures handler.processor.unseen == old(handler.processor.unseen)
      ensures handler.processor.observed == old(handler.processor.observed)
    {
      hide ParseFile, OneSpan, SpanThenRead, Calls, Evolved, Decoder.Valid, RecordHandler.Valid, Environment.Valid,
           LastDigest, Stuck, Breaks, CaughtUp, HasNone, Drained, Advances, Rests, Reported;
      EvolvedAtStart(env.world);
      RestsNot(env.world, env.schedule);
      ghost var incidents := env.incidents.log;
      NothingReported(None, incidents);
      result, error := DrainResult(0, 0, false), None;
      ghost var start, steps, begin, log := env.world, env.schedule, GetView(), handler.log;
      DrainedNot(begin, log, mode, Generation());
      while true
        invariant Valid() && env.Valid() && handler.Valid() && Follows(env.world)
        invariant Evolved(start, env.world)
        invariant Drained(begin, GetView(), log, handler.log, mode, Generation(), result.records, result.bytes)
        invariant handler.processor.unseen == old(handler.processor.unseen)
        invariant handler.processor.observed == old(handler.processor.observed)
        invariant !result.closed && Reported(None, incidents, env.incidents.log)
        invariant Rests(start, steps, env.world, env.schedule)
        invariant IsFinal(ParseFile(begin.fed, decoder.maxRecordBytes).tail) ==> decoder.fed == begin.fed
        decreases |env.schedule|, |env.world.files[Generation()]| - |decoder.fed|, |decoder.buffer|
      {
        Await(env, start, steps);
        ghost var view, calls, so := GetView(), handler.log, env.incidents.log;
        var tail;
        tail, error := ApplyNext(handler, mode, env.incidents);
        ReportedOn(error, incidents, so, env.incidents.log);
        DrainedOn(begin, view, GetView(), log, calls, handler.log, mode, Generation(), result.records, result.bytes);
        if tail == None && error == None {
          result := result.(records := result.records + 1);
          continue;
        }
        if error.Some? {
          return;
        }
        view, so := GetView(), env.incidents.log;
        var readBytes, closed, finished;
        readBytes, closed, finished, error := GoOn(tail.value, env, start, steps);
        ReportedOn(error, incidents, so, env.incidents.log);
        DrainedOn(begin, view, GetView(), log, handler.log, handler.log, mode, Generation(),
                  result.records, result.bytes);
        result := result.(bytes := result.bytes + readBytes, closed := closed);
        if finished || error.Some? {
          if IsBroken(error) {
            BreaksHere(begin);
          }
          return;
        }
      }
    }
  }
}
