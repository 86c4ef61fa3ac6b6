/**
 * From a report record to the metric state. Records that cannot be normalized
 * leave the state untouched and are reported back to the source.
 */
module Processing {
  import opened Wrappers
  import opened Framing
  import opened Measurements
  import opened Counters
  import opened Ordering
  import opened Worlds
  import opened Records
  import opened Snapshots

  /** A record that a handler has accepted: its mode and the report it comes from. */
  datatype Call = Call(mode: RecordMode, generation: GenerationID, record: Record)

  function CallObservations(codec: Codec, call: Call): seq<Observation> {
    match Normalize(codec, call.record.raw)
    case None => []
    case Some(record) => Observations(call.mode, record.counters)
  }

  /** The counter observations of all accepted records, in order. */
  function LogObservations(codec: Codec, log: seq<Call>): seq<Observation> {
    if log == [] then []
    else LogObservations(codec, log[..|log| - 1]) + CallObservations(codec, log[|log| - 1])
  }

  /** Accepting one more record adds what that record emits from the baselines before it. */
  lemma {:induction false} LogStep(codec: Codec, log: seq<Call>, call: Call)
    requires Normalize(codec, call.record.raw).Some?
    ensures var e := Run(NOTHING, LogObservations(codec, log));
            var r := Run(Effect(e.baselines, [], []),
                         Observations(call.mode, Normalize(codec, call.record.raw).value.counters));
            Run(NOTHING, LogObservations(codec, log + [call]))
            == Effect(r.baselines, e.increments + r.increments, e.resets + r.resets)
  {
    var obs := CallObservations(codec, call);
    assert (log + [call])[..|log|] == log;
    RunSplits(NOTHING, LogObservations(codec, log), obs);
    RunFrom(Run(NOTHING, LogObservations(codec, log)), obs);
  }

  lemma {:induction false} LogIsExact(codec: Codec, log: seq<Call>)
    ensures forall i :: 0 <= i < |LogObservations(codec, log)| ==>
              LogObservations(codec, log)[i].value <= MAX_EXACT_INTEGER
  {
    hide Normalize;
    if log != [] {
      LogIsExact(codec, log[..|log| - 1]);
      NormalizedIsExact(codec, log[|log| - 1].record.raw);
    }
  }

  lemma {:induction false} LogModes(codec: Codec, log: seq<Call>, mode: RecordMode)
    requires forall i :: 0 <= i < |log| ==> log[i].mode == mode
    ensures forall i :: 0 <= i < |LogObservations(codec, log)| ==> LogObservations(codec, log)[i].mode == mode
  {
    if log != [] {
      LogModes(codec, log[..|log| - 1], mode);
    }
  }

  /**
   * In every reachable state of a processor, every increment emitted so far is
   * positive and at most 2^53, so adding it as an int64 loses nothing.
   */
  lemma {:induction false} EmittedIsExact(processor: Processor)
    requires processor.Valid()
    ensures forall i :: 0 <= i < |processor.effect.increments| ==>
              0 < processor.effect.increments[i].delta <= MAX_EXACT_INTEGER
  {
    LogIsExact(processor.codec, processor.log);
    IncrementsAreExact(NOTHING, LogObservations(processor.codec, processor.log));
  }

  /** As long as every record was applied in baseline mode, nothing has been emitted. */
  lemma {:induction false} NothingEmittedBeforeCutover(processor: Processor)
    requires processor.Valid() && forall i :: 0 <= i < |processor.log| ==> processor.log[i].mode == Baseline
    ensures processor.effect.increments == [] && processor.recorded == []
  {
    LogModes(processor.codec, processor.log, Baseline);
    BaselineEmitsNothing(LogObservations(processor.codec, processor.log));
  }

  // ---- Gauges ----

  function CallGauges(codec: Codec, call: Call): seq<GaugeValue> {
    match Normalize(codec, call.record.raw)
    case None => []
    case Some(record) => record.gauges
  }

  /** The gauges after all records of a log: each series has the last value it was given. */
  function LogGauges(codec: Codec, log: seq<Call>): map<Series, real> {
    if log == [] then map[]
    else SetGauges(LogGauges(codec, log[..|log| - 1]), CallGauges(codec, log[|log| - 1]))
  }

  /** Gauges do not depend on where baseline mode ends, nor on the reports that records come from. */
  lemma {:induction false} GaugesIgnoreModes(codec: Codec, a: seq<Call>, b: seq<Call>)
    requires |a| == |b| && forall i :: 0 <= i < |a| ==> a[i].record.raw == b[i].record.raw
    ensures LogGauges(codec, a) == LogGauges(codec, b)
    decreases |a|
  {
    if a != [] {
      GaugesIgnoreModes(codec, a[..|a| - 1], b[..|b| - 1]);
    }
  }

  // ---- Statistics ----

  datatype RecordOutcome = RecordAccepted | RecordIgnored | RecordInvalid

  /** Accepted if it holds a metric value, else invalid if it holds an invalid one, else ignored. */
  function OutcomeOf(normalized: Option<NormalizedRecord>): RecordOutcome {
    match normalized
    case None => RecordInvalid
    case Some(record) =>
      if record.counters != [] || record.gauges != [] then RecordAccepted
      else if record.invalid > 0 then RecordInvalid
      else RecordIgnored
  }

  datatype Stats = Stats(accepted: nat, ignored: nat, rejected: nat,
                         ignoredValues: nat, invalidValues: nat, counterResets: nat)
  {
    /** One record more; a record that is not an object counts as one invalid value. */
    function Count(normalized: Option<NormalizedRecord>, resets: nat): Stats {
      var outcome := OutcomeOf(normalized);
      Stats(accepted + (if outcome == RecordAccepted then 1 else 0),
            ignored + (if outcome == RecordIgnored then 1 else 0),
            rejected + (if outcome == RecordInvalid then 1 else 0),
            ignoredValues + (if normalized.Some? then normalized.value.ignored else 0),
            invalidValues + (if normalized.Some? then normalized.value.invalid else 1),
            counterResets + resets)
    }
  }

  class Processor {
    const state: State
    const codec: Codec
    var stats: Stats
    var observed: bool

    /** Records applied so far, everything they emitted, and what the observer was told. */
    ghost var log: seq<Call>
    ghost var effect: Effect
    ghost var recorded: seq<CounterIncrement>
    ghost var unseen: nat
    /** How long the log was when the gauges were last cleared. */
    ghost var cleared: nat

    /**
     * The state is the result of the log alone, and the observer has been told of
     * every increment since it was attached, once.
     */
    ghost predicate Valid()
      reads this, state
    {
      && effect == Run(NOTHING, LogObservations(codec, log))
      && state.counterBaselines == effect.baselines
      && cleared <= |log| && state.gauges == LogGauges(codec, log[cleared..])
      && stats.counterResets == |effect.resets|
      && unseen <= |effect.increments|
      && recorded == (if observed then effect.increments[unseen..] else [])
    }

    constructor (codec: Codec)
      ensures Valid() && fresh(state) && log == [] && !observed
      ensures this.codec == codec
    {
      state := new State();
      this.codec := codec;
      stats := Stats(0, 0, 0, 0, 0, 0);
      observed, log, effect, recorded, unseen, cleared := false, [], NOTHING, [], 0, 0;
    }

    /** Applies one record, or refuses it and changes nothing but the statistics. */
    method Process(mode: RecordMode, record: Record, ghost generation: GenerationID) returns (ok: bool)
      requires Valid()
      modifies this`stats, this`log, this`effect, this`recorded, state
      ensures Valid()
      ensures ok <==> Normalize(codec, record.raw).Some?
      ensures log == if ok then old(log) + [Call(mode, generation, record)] else old(log)
      ensures !ok ==> effect == old(effect) && state.gauges == old(state.gauges) && recorded == old(recorded)
      ensures |effect.resets| >= |old(effect.resets)|
      ensures stats == old(stats).Count(Normalize(codec, record.raw), |effect.resets| - |old(effect.resets)|)
    {
      hide Run, LogObservations, LogGauges, Normalize, Normalizes;
      var normalized := NormalizeRecord(codec, record.raw);
      if normalized == None {
        RecordStats(RecordInvalid, 0, 1, 0);
        return false;
      }
      var result := Accept(mode, record, normalized.value, generation);
      var metricValues := |normalized.value.counters| + |normalized.value.gauges|;
      var outcome := if metricValues > 0 then RecordAccepted
                     else if normalized.value.invalid > 0 then RecordInvalid
                     else RecordIgnored;
      RecordStats(outcome, normalized.value.ignored, normalized.value.invalid, |result.resets|);
      return true;
    }

    /** Applies a normalized record and notifies the observer. */
    method Accept(mode: RecordMode, record: Record, normalized: NormalizedRecord, ghost generation: GenerationID)
      returns (result: ApplyResult)
      requires Valid() && Normalize(codec, record.raw) == Some(normalized)
      modifies this`log, this`effect, this`recorded, state
      ensures log == old(log) + [Call(mode, generation, record)]
      ensures effect == Run(NOTHING, LogObservations(codec, log))
      ensures state.counterBaselines == effect.baselines
      ensures effect.increments == old(effect.increments) + result.increments
      ensures effect.resets == old(effect.resets) + result.resets
      ensures recorded == old(recorded) + (if observed then result.increments else [])
      ensures state.gauges == LogGauges(codec, log[cleared..])
    {
      hide Run, LogObservations, Observations, SetGauges, Normalize;
      result := state.Apply(mode, normalized);
      ghost var call := Call(mode, generation, record);
      LogStep(codec, log, call);
      assert (log + [call])[cleared..] == log[cleared..] + [call];
      assert (log[cleared..] + [call])[..|log[cleared..]|] == log[cleared..];
      log := log + [call];
      effect := Effect(state.counterBaselines, effect.increments + result.increments, effect.resets + result.resets);
      if observed {
        recorded := recorded + result.increments;
      }
    }

    /** The source session has ended: its gauges are forgotten, its counters stay. */
    method EndSession() returns (removed: seq<Series>)
      requires Valid()
      modifies state`gauges, this`cleared
      ensures Valid() && state.gauges == map[] && effect == old(effect) && recorded == old(recorded)
      ensures multiset(removed) == multiset(old(state.gauges).Keys)
    {
      hide Run, LogObservations;
      removed := state.ClearGauges();
      cleared := |log|;
    }

    method RecordStats(outcome: RecordOutcome, ignoredValues: nat, invalidValues: nat, resets: nat)
      modifies this`stats
      ensures stats == Stats(old(stats.accepted) + (if outcome == RecordAccepted then 1 else 0),
                             old(stats.ignored) + (if outcome == RecordIgnored then 1 else 0),
                             old(stats.rejected) + (if outcome == RecordInvalid then 1 else 0),
                             old(stats.ignoredValues) + ignoredValues,
                             old(stats.invalidValues) + invalidValues,
                             old(stats.counterResets) + resets)
    {
      match outcome {
        case RecordAccepted => stats := stats.(accepted := stats.accepted + 1);
        case RecordIgnored => stats := stats.(ignored := stats.ignored + 1);
        case RecordInvalid => stats := stats.(rejected := stats.rejected + 1);
      }
      stats := stats.(ignoredValues := stats.ignoredValues + ignoredValues,
                      invalidValues := stats.invalidValues + invalidValues,
                      counterResets := stats.counterResets + resets);
    }

    /** Attaches the observer once. What was emitted before is not replayed. */
    method AttachObserver() returns (ok: bool)
      requires Valid()
      modifies this`observed, this`recorded, this`unseen
      ensures Valid() && observed
      ensures ok <==> !old(observed)
      ensures ok ==> unseen == |effect.increments| && recorded == []
      ensures !ok ==> unseen == old(unseen) && recorded == old(recorded)
    {
      hide Run, LogObservations, LogGauges;
      if observed {
        return false;
      }
      assert effect.increments[|effect.increments|..] == [];
      observed := true;
      unseen := |effect.increments|;
      recorded := [];
      return true;
    }
  }

  /**
   * The handler that a source session calls. It may refuse any record; a record it
   * accepts has been applied by the processor.
   */
  class RecordHandler {
    const processor: Processor
    ghost var log: seq<Call>

    ghost predicate Valid()
      reads this, processor, processor.state
    {
      processor.Valid() && processor.log == log
    }

    constructor (processor: Processor)
      requires processor.Valid()
      ensures Valid() && this.processor == processor && log == processor.log
    {
      this.processor := processor;
      log := processor.log;
    }

    /** Applies a record. It is refused if it does not decode, or for a reason of the handler's own. */
    method Handle(mode: RecordMode, record: Record, ghost generation: GenerationID, incidents: Incidents)
      returns (ok: bool)
      requires Valid()
      modifies this, processor, processor.state, incidents
      ensures Valid()
      ensures log == if ok then old(log) + [Call(mode, generation, record)] else old(log)
      ensures processor.unseen == old(processor.unseen) && processor.observed == old(processor.observed)
      ensures ok ==> incidents.log == old(incidents.log)
      ensures !ok ==>
                || incidents.log == old(incidents.log) + [CallFailed]
                || (Normalize(processor.codec, record.raw) == None
                    && incidents.log == old(incidents.log) + [RecordRefused(record.raw)])
    {
      hide Processor.Valid, Normalize;
      var failed := incidents.Strike();
      if failed {
        return false;
      }
      ok := processor.Process(mode, record, generation);
      if ok {
        log := log + [Call(mode, generation, record)];
      } else {
        incidents.Note(RecordRefused(record.raw));
      }
    }
  }
}
