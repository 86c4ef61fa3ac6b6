/**
 * Translation of process-lifetime counters into increments. The state keeps the
 * last value of every series; a live observation that is larger emits the
 * difference, a smaller one is a reset, and baseline observations emit nothing.
 * The increments are proved to be the positive differences of each series, and
 * from that: totals are lower bounds, the cutover only selects a suffix, and
 * series do not influence each other.
 */
module Counters {
  import opened Measurements

  datatype CounterIncrement = CounterIncrement(series: Series, delta: nat)

  datatype CounterReset = CounterReset(series: Series, previous: nat, current: nat)

  datatype ApplyResult = ApplyResult(
    increments: seq<CounterIncrement>, resets: seq<CounterReset>, gaugeUpdates: seq<GaugeValue>)

  // ---- Specification: one observation after the other ----

  datatype Observation = Observation(mode: RecordMode, series: Series, value: nat)

  /** The last values, and everything emitted on the way to them. */
  datatype Effect = Effect(
    baselines: map<Series, nat>, increments: seq<CounterIncrement>, resets: seq<CounterReset>)

  function Observe(e: Effect, o: Observation): Effect {
    var baselines := e.baselines[o.series := o.value];
    if o.mode == Baseline || o.series !in e.baselines || o.value == e.baselines[o.series] then
      e.(baselines := baselines)
    else if o.value < e.baselines[o.series] then
      e.(baselines := baselines, resets := e.resets + [CounterReset(o.series, e.baselines[o.series], o.value)])
    else
      e.(baselines := baselines,
         increments := e.increments + [CounterIncrement(o.series, o.value - e.baselines[o.series])])
  }

  function Run(start: Effect, obs: seq<Observation>): Effect {
    if obs == [] then start else Observe(Run(start, obs[..|obs| - 1]), obs[|obs| - 1])
  }

  const NOTHING: Effect := Effect(map[], [], [])

  function Observations(mode: RecordMode, counters: seq<CounterValue>): (obs: seq<Observation>)
    ensures |obs| == |counters|
    ensures forall i :: 0 <= i < |obs| ==> obs[i] == Observation(mode, counters[i].series, counters[i].value)
  {
    seq(|counters|, i requires 0 <= i < |counters| => Observation(mode, counters[i].series, counters[i].value))
  }

  /** No later value is for the same series. */
  ghost predicate IsLast(counters: seq<CounterValue>, i: nat) {
    i < |counters| && forall j :: i < j < |counters| ==> counters[j].series != counters[i].series
  }

  /** A baseline is the last value observed. */
  lemma {:induction false} BaselinesHoldLast(start: Effect, obs: seq<Observation>, i: nat)
    requires i < |obs| && forall j :: i < j < |obs| ==> obs[j].series != obs[i].series
    ensures var e := Run(start, obs);
            obs[i].series in e.baselines && e.baselines[obs[i].series] == obs[i].value
  {
    if i < |obs| - 1 {
      BaselinesHoldLast(start, obs[..|obs| - 1], i);
    }
  }

  /** The baselines are the last values of these counters. */
  ghost predicate HoldLast(baselines: map<Series, nat>, counters: seq<CounterValue>) {
    forall i :: 0 <= i < |counters| && IsLast(counters, i) ==>
      counters[i].series in baselines && baselines[counters[i].series] == counters[i].value
  }

  lemma {:induction false} LastOnesHold(start: Effect, mode: RecordMode, counters: seq<CounterValue>)
    ensures HoldLast(Run(start, Observations(mode, counters)).baselines, counters)
  {
    hide Run;
    forall i | 0 <= i < |counters| && IsLast(counters, i)
      ensures var e := Run(start, Observations(mode, counters));
              counters[i].series in e.baselines && e.baselines[counters[i].series] == counters[i].value
    {
      BaselinesHoldLast(start, Observations(mode, counters), i);
    }
  }

  function SetGauges(gauges: map<Series, real>, updates: seq<GaugeValue>): map<Series, real> {
    if updates == [] then gauges
    else
      var last := updates[|updates| - 1];
      SetGauges(gauges, updates[..|updates| - 1])[last.series := last.value]
  }

  // ---- The state object ----

  class State {
    var counterBaselines: map<Series, nat>
    var gauges: map<Series, real>

    constructor ()
      ensures counterBaselines == map[] && gauges == map[]
    {
      counterBaselines, gauges := map[], map[];
    }

    method Apply(mode: RecordMode, record: NormalizedRecord) returns (result: ApplyResult)
      modifies this
      ensures Effect(counterBaselines, result.increments, result.resets)
           == Run(Effect(old(counterBaselines), [], []), Observations(mode, record.counters))
      ensures HoldLast(counterBaselines, record.counters)
      ensures gauges == SetGauges(old(gauges), record.gauges)
      ensures result.gaugeUpdates == record.gauges
    {
      hide HoldLast;
      var increments: seq<CounterIncrement>, resets: seq<CounterReset> := [], [];
      ghost var start := Effect(counterBaselines, [], []);
      ghost var obs := Observations(mode, record.counters);
      for i := 0 to |record.counters|
        invariant Effect(counterBaselines, increments, resets) == Run(start, obs[..i])
        invariant gauges == old(gauges)
      {
        var counter := record.counters[i];
        assert obs[..i + 1][..i] == obs[..i] && obs[..i + 1][i] == obs[i];
        var observed := counter.series in counterBaselines;
        var previous := if observed then counterBaselines[counter.series] else 0;
        counterBaselines := counterBaselines[counter.series := counter.value];
        if mode == Baseline || !observed || counter.value == previous {
          continue;
        }
        if counter.value < previous {
          resets := resets + [CounterReset(counter.series, previous, counter.value)];
          continue;
        }
        increments := increments + [CounterIncrement(counter.series, counter.value - previous)];
      }
      assert obs[..|record.counters|] == obs;
      LastOnesHold(start, mode, record.counters);

      var updates: seq<GaugeValue> := [];
      for i := 0 to |record.gauges|
        invariant gauges == SetGauges(old(gauges), record.gauges[..i])
        invariant updates == record.gauges[..i]
        invariant Effect(counterBaselines, increments, resets) == Run(start, obs)
      {
        assert record.gauges[..i + 1][..i] == record.gauges[..i];
        gauges := gauges[record.gauges[i].series := record.gauges[i].value];
        updates := updates + [record.gauges[i]];
      }
      assert record.gauges[..|record.gauges|] == record.gauges;
      return ApplyResult(increments, resets, updates);
    }

    /** Forgets every gauge and lists each of them once; counters keep their baselines. */
    method ClearGauges() returns (removed: seq<Series>)
      modifies this`gauges
      ensures gauges == map[]
      ensures multiset(removed) == multiset(old(gauges).Keys)
    {
      removed := [];
      while gauges != map[]
        invariant gauges.Keys <= old(gauges).Keys
        invariant multiset(removed) == multiset(old(gauges).Keys - gauges.Keys)
        decreases |gauges|
      {
        var series :| series in gauges;
        removed := removed + [series];
        assert old(gauges).Keys - (gauges.Keys - {series}) == old(gauges).Keys - gauges.Keys + {series};
        gauges := gauges - {series};
      }
    }
  }

  // ---- Runs ----

  lemma {:induction false} RunSplits(start: Effect, a: seq<Observation>, b: seq<Observation>)
    ensures Run(start, a + b) == Run(Run(start, a), b)
  {
    if b == [] {
      assert a + b == a;
    } else {
      assert (a + b)[..|a + b| - 1] == a + b[..|b| - 1];
      RunSplits(start, a, b[..|b| - 1]);
    }
  }

  /** What was emitted before plays no part in what is emitted next. */
  lemma {:induction false} RunFrom(e: Effect, obs: seq<Observation>)
    ensures var r := Run(Effect(e.baselines, [], []), obs);
            Run(e, obs) == Effect(r.baselines, e.increments + r.increments, e.resets + r.resets)
  {
    if obs != [] {
      RunFrom(e, obs[..|obs| - 1]);
    }
  }

  function Total(increments: seq<CounterIncrement>, s: Series): nat {
    if increments == [] then 0
    else
      var last := increments[|increments| - 1];
      Total(increments[..|increments| - 1], s) + if last.series == s then last.delta else 0
  }

  function Dropped(resets: seq<CounterReset>, s: Series): int {
    if resets == [] then 0
    else
      var last := resets[|resets| - 1];
      Dropped(resets[..|resets| - 1], s) + if last.series == s then last.previous - last.current else 0
  }

  // ---- The reference: positive differences of one series ----

  /** The observations of one series, in order. */
  function Select(obs: seq<Observation>, s: Series): seq<Observation> {
    if obs == [] then []
    else
      var rest := Select(obs[..|obs| - 1], s);
      if obs[|obs| - 1].series == s then rest + [obs[|obs| - 1]] else rest
  }

  function Positive(n: int): nat {
    if n > 0 then n else 0
  }

  /** The sum of the positive differences of neighbours that end in a live observation. */
  function Growth(values: seq<Observation>): nat {
    if |values| < 2 then 0
    else
      var n := |values|;
      Growth(values[..n - 1])
      + if values[n - 1].mode == Live then Positive(values[n - 1].value - values[n - 2].value) else 0
  }

  /** The sum of the negative differences of neighbours that end in a live observation. */
  function Loss(values: seq<Observation>): nat {
    if |values| < 2 then 0
    else
      var n := |values|;
      Loss(values[..n - 1])
      + if values[n - 1].mode == Live then Positive(values[n - 2].value - values[n - 1].value) else 0
  }

  /**
   * For every run and every series: the increments emitted add up to the positive
   * differences of that series alone, the resets account for the negative ones,
   * and the baseline is the last value observed.
   */
  lemma {:induction false} TotalsArePositiveDifferences(obs: seq<Observation>, s: Series)
    ensures var e, own := Run(NOTHING, obs), Select(obs, s);
            && Total(e.increments, s) == Growth(own)
            && Dropped(e.resets, s) == Loss(own)
            && (s in e.baselines <==> own != [])
            && (own != [] ==> e.baselines[s] == own[|own| - 1].value)
  {
    if obs != [] {
      var before := obs[..|obs| - 1];
      var o := obs[|obs| - 1];
      TotalsArePositiveDifferences(before, s);
      ObserveTotals(Run(NOTHING, before), o, s);
      if o.series == s {
        GrowthStep(Select(before, s), o);
      }
    }
  }

  /** What one observation adds to the totals of a series. */
  lemma {:induction false} ObserveTotals(e: Effect, o: Observation, s: Series)
    ensures var after := Observe(e, o);
            var counts := o.mode == Live && o.series == s && s in e.baselines;
            && Total(after.increments, s) == Total(e.increments, s)
               + (if counts then Positive(o.value - e.baselines[s]) else 0)
            && Dropped(after.resets, s) == Dropped(e.resets, s)
               + (if counts then Positive(e.baselines[s] - o.value) else 0)
  {
    hide Total, Dropped;
    if o.mode == Live && o.series in e.baselines {
      TotalMore(e.increments, CounterIncrement(o.series, Positive(o.value - e.baselines[o.series])), s);
      DroppedMore(e.resets, CounterReset(o.series, e.baselines[o.series], o.value), s);
    }
  }

  lemma TotalMore(increments: seq<CounterIncrement>, i: CounterIncrement, s: Series)
    ensures Total(increments + [i], s) == Total(increments, s) + if i.series == s then i.delta else 0
  {
    assert (increments + [i])[..|increments|] == increments;
  }

  lemma DroppedMore(resets: seq<CounterReset>, r: CounterReset, s: Series)
    ensures Dropped(resets + [r], s) == Dropped(resets, s) + if r.series == s then r.previous - r.current else 0
  {
    assert (resets + [r])[..|resets|] == resets;
  }

  lemma GrowthStep(values: seq<Observation>, o: Observation)
    ensures var counts := values != [] && o.mode == Live;
            && Growth(values + [o]) == Growth(values)
               + (if counts then Positive(o.value - values[|values| - 1].value) else 0)
            && Loss(values + [o]) == Loss(values)
               + (if counts then Positive(values[|values| - 1].value - o.value) else 0)
  {
    assert (values + [o])[..|values|] == values;
  }

  // ---- Totals are lower bounds ----

  /** `kept` is `full` with some live observations deleted. */
  ghost predicate Thins(full: seq<Observation>, kept: seq<Observation>) {
    if full == [] then kept == []
    else
      var last := full[|full| - 1];
      var before := full[..|full| - 1];
      || (kept != [] && kept[|kept| - 1] == last && Thins(before, kept[..|kept| - 1]))
      || (last.mode == Live && Thins(before, kept))
  }

  lemma {:induction false} SelectThins(full: seq<Observation>, kept: seq<Observation>, s: Series)
    requires Thins(full, kept)
    ensures Thins(Select(full, s), Select(kept, s))
  {
    if full != [] {
      var last := full[|full| - 1];
      var before := full[..|full| - 1];
      var own := Select(before, s);
      assert last.series == s ==> Select(full, s)[..|own|] == own;
      if kept != [] && kept[|kept| - 1] == last && Thins(before, kept[..|kept| - 1]) {
        SelectThins(before, kept[..|kept| - 1], s);
        var keptOwn := Select(kept[..|kept| - 1], s);
        assert last.series == s ==> Select(kept, s)[..|keptOwn|] == keptOwn;
      } else {
        SelectThins(before, kept, s);
      }
    }
  }

  /** Deleting live values never gains: what is left still has to climb to the last value. */
  lemma {:induction false} GrowthThins(full: seq<Observation>, kept: seq<Observation>)
    requires Thins(full, kept)
    ensures kept != [] ==> full != []
    ensures kept != [] ==>
              Growth(kept) + Positive(full[|full| - 1].value - kept[|kept| - 1].value) <= Growth(full)
  {
    if full != [] {
      var before := full[..|full| - 1];
      if kept != [] && kept[|kept| - 1] == full[|full| - 1] && Thins(before, kept[..|kept| - 1]) {
        GrowthThins(before, kept[..|kept| - 1]);
      } else {
        GrowthThins(before, kept);
      }
    }
  }

  /** Losing any set of live observations never increases the total of any series. */
  lemma {:induction false} TotalsAreLowerBounds(full: seq<Observation>, kept: seq<Observation>, s: Series)
    requires Thins(full, kept)
    ensures Total(Run(NOTHING, kept).increments, s) <= Total(Run(NOTHING, full).increments, s)
  {
    SelectThins(full, kept, s);
    GrowthThins(Select(full, s), Select(kept, s));
    TotalsArePositiveDifferences(full, s);
    TotalsArePositiveDifferences(kept, s);
  }

  // ---- The cutover ----

  function InMode(obs: seq<Observation>, mode: RecordMode): (r: seq<Observation>)
    ensures |r| == |obs|
  {
    seq(|obs|, i requires 0 <= i < |obs| => obs[i].(mode := mode))
  }

  /** The first k observations in baseline mode, the rest live. */
  function CutAt(obs: seq<Observation>, k: nat): seq<Observation>
    requires k <= |obs|
  {
    InMode(obs[..k], Baseline) + InMode(obs[k..], Live)
  }

  lemma {:induction false} ModesKeepBaselines(e: Effect, f: Effect, obs: seq<Observation>, mode: RecordMode)
    requires e.baselines == f.baselines
    ensures Run(e, obs).baselines == Run(f, InMode(obs, mode)).baselines
  {
    if obs != [] {
      assert InMode(obs, mode)[..|obs| - 1] == InMode(obs[..|obs| - 1], mode);
      ModesKeepBaselines(e, f, obs[..|obs| - 1], mode);
    }
  }

  lemma {:induction false} BaselineIsSilent(e: Effect, obs: seq<Observation>)
    ensures Run(e, InMode(obs, Baseline)) == e.(baselines := Run(e, InMode(obs, Baseline)).baselines)
  {
    if obs != [] {
      assert InMode(obs, Baseline)[..|obs| - 1] == InMode(obs[..|obs| - 1], Baseline);
      BaselineIsSilent(e, obs[..|obs| - 1]);
    }
  }

  /**
   * Where baseline mode ends decides only which emissions are made: the final
   * baselines are the same, and a cutover at k emits exactly the suffix of what an
   * all-live run emits after its first k observations.
   */
  lemma {:induction false} CutoverSelectsSuffix(obs: seq<Observation>, k: nat)
    requires k <= |obs|
    ensures var all, first, cut :=
              Run(NOTHING, InMode(obs, Live)), Run(NOTHING, InMode(obs[..k], Live)), Run(NOTHING, CutAt(obs, k));
            && cut.baselines == all.baselines
            && all.increments == first.increments + cut.increments
            && all.resets == first.resets + cut.resets
  {
    var a, b := obs[..k], obs[k..];
    assert InMode(obs, Live) == InMode(a, Live) + InMode(b, Live);
    RunSplits(NOTHING, InMode(a, Live), InMode(b, Live));
    RunSplits(NOTHING, InMode(a, Baseline), InMode(b, Live));
    ModesKeepBaselines(NOTHING, NOTHING, a, Live);
    ModesKeepBaselines(NOTHING, NOTHING, a, Baseline);
    BaselineIsSilent(NOTHING, a);
    RunFrom(Run(NOTHING, InMode(a, Live)), InMode(b, Live));
    RunFrom(Run(NOTHING, InMode(a, Baseline)), InMode(b, Live));
  }

  /** Baseline observations emit nothing, whatever they are. */
  lemma {:induction false} BaselineEmitsNothing(obs: seq<Observation>)
    requires forall i :: 0 <= i < |obs| ==> obs[i].mode == Baseline
    ensures Run(NOTHING, obs).increments == [] && Run(NOTHING, obs).resets == []
  {
    assert InMode(obs, Baseline) == obs;
    BaselineIsSilent(NOTHING, obs);
  }

  // ---- Series are independent ----

  function SelectIncrements(increments: seq<CounterIncrement>, s: Series): seq<CounterIncrement> {
    if increments == [] then []
    else
      var rest := SelectIncrements(increments[..|increments| - 1], s);
      if increments[|increments| - 1].series == s then rest + [increments[|increments| - 1]] else rest
  }

  function SelectResets(resets: seq<CounterReset>, s: Series): seq<CounterReset> {
    if resets == [] then []
    else
      var rest := SelectResets(resets[..|resets| - 1], s);
      if resets[|resets| - 1].series == s then rest + [resets[|resets| - 1]] else rest
  }

  lemma SelectedMore(increments: seq<CounterIncrement>, i: CounterIncrement, resets: seq<CounterReset>, r: CounterReset,
                     s: Series)
    ensures SelectIncrements(increments + [i], s)
         == SelectIncrements(increments, s) + if i.series == s then [i] else []
    ensures SelectResets(resets + [r], s) == SelectResets(resets, s) + if r.series == s then [r] else []
  {
    assert (increments + [i])[..|increments|] == increments;
    assert (resets + [r])[..|resets|] == resets;
  }

  /** `alone` is what a run has done to one of its series. */
  ghost predicate IsAlone(alone: Effect, e: Effect, s: Series) {
    && alone.increments == SelectIncrements(e.increments, s)
    && alone.resets == SelectResets(e.resets, s)
    && (s in e.baselines <==> s in alone.baselines)
    && (s in e.baselines ==> e.baselines[s] == alone.baselines[s])
  }

  lemma ObserveAlone(alone: Effect, e: Effect, o: Observation, s: Series)
    requires IsAlone(alone, e, s)
    ensures IsAlone(if o.series == s then Observe(alone, o) else alone, Observe(e, o), s)
  {
    hide SelectIncrements, SelectResets;
    if o.series in e.baselines {
      SelectedMore(e.increments, CounterIncrement(o.series, Positive(o.value - e.baselines[o.series])),
                   e.resets, CounterReset(o.series, e.baselines[o.series], o.value), s);
    }
  }

  lemma RunMore(obs: seq<Observation>, o: Observation)
    ensures Run(NOTHING, obs + [o]) == Observe(Run(NOTHING, obs), o)
  {
    hide Observe;
    assert (obs + [o])[..|obs|] == obs;
  }

  /** A series emits, and is reset, as it would if it were the only one. */
  lemma {:induction false} SeriesAreIndependent(obs: seq<Observation>, s: Series)
    ensures IsAlone(Run(NOTHING, Select(obs, s)), Run(NOTHING, obs), s)
  {
    hide Observe;
    if obs != [] {
      var before, o := obs[..|obs| - 1], obs[|obs| - 1];
      hide IsAlone;
      SeriesAreIndependent(before, s);
      ObserveAlone(Run(NOTHING, Select(before, s)), Run(NOTHING, before), o, s);
      RunMore(Select(before, s), o);
    }
  }

  // ---- Every increment and every reset ----

  /** The neighbours that rise and end live, each with its difference. */
  function Rises(values: seq<Observation>): seq<CounterIncrement> {
    if |values| < 2 then []
    else
      var a, b := values[|values| - 2], values[|values| - 1];
      Rises(values[..|values| - 1])
      + if b.mode == Live && a.value < b.value then [CounterIncrement(b.series, b.value - a.value)] else []
  }

  /** The neighbours that fall and end live, each with its two values. */
  function Falls(values: seq<Observation>): seq<CounterReset> {
    if |values| < 2 then []
    else
      var a, b := values[|values| - 2], values[|values| - 1];
      Falls(values[..|values| - 1])
      + if b.mode == Live && b.value < a.value then [CounterReset(b.series, a.value, b.value)] else []
  }

  /** What one series does on its own. */
  lemma {:induction false} AloneIsNeighbours(own: seq<Observation>, s: Series)
    requires forall i :: 0 <= i < |own| ==> own[i].series == s
    ensures var e := Run(NOTHING, own);
            && e.increments == Rises(own) && e.resets == Falls(own)
            && e.baselines == if own == [] then map[] else map[s := own[|own| - 1].value]
  {
    hide Run, Rises, Falls;
    if own == [] {
      NoNeighbours();
    } else {
      var before, o := own[..|own| - 1], own[|own| - 1];
      AloneIsNeighbours(before, s);
      RunMore(before, o);
      NeighboursMore(before, o);
      assert before + [o] == own;
    }
  }

  lemma NoNeighbours()
    ensures Run(NOTHING, []) == NOTHING && Rises([]) == [] && Falls([]) == []
  {
  }

  lemma NeighboursMore(values: seq<Observation>, o: Observation)
    ensures var counts := values != [] && o.mode == Live;
            && Rises(values + [o]) == Rises(values)
               + (if counts && values[|values| - 1].value < o.value then
                    [CounterIncrement(o.series, o.value - values[|values| - 1].value)] else [])
            && Falls(values + [o]) == Falls(values)
               + (if counts && o.value < values[|values| - 1].value then
                    [CounterReset(o.series, values[|values| - 1].value, o.value)] else [])
  {
    assert (values + [o])[..|values|] == values;
  }

  lemma {:induction false} SelectsOne(obs: seq<Observation>, s: Series)
    ensures forall i :: 0 <= i < |Select(obs, s)| ==> Select(obs, s)[i].series == s
  {
    if obs != [] {
      SelectsOne(obs[..|obs| - 1], s);
    }
  }

  /**
   * For every run and every series: the increments are exactly the neighbours that
   * rise, the resets exactly those that fall, in order and each with its values. An
   * unchanged value is neither.
   */
  lemma {:induction false} EmissionsAreNeighbours(obs: seq<Observation>, s: Series)
    ensures var e, own := Run(NOTHING, obs), Select(obs, s);
            && SelectIncrements(e.increments, s) == Rises(own)
            && SelectResets(e.resets, s) == Falls(own)
  {
    hide Run, Select, Rises, Falls, SelectIncrements, SelectResets;
    SeriesAreIndependent(obs, s);
    SelectsOne(obs, s);
    AloneIsNeighbours(Select(obs, s), s);
  }

  // ---- Gauges ----

  /** A gauge holds the last of its updates. */
  lemma {:induction false} GaugesHoldLast(gauges: map<Series, real>, updates: seq<GaugeValue>, i: nat)
    requires i < |updates| && forall j :: i < j < |updates| ==> updates[j].series != updates[i].series
    ensures var after := SetGauges(gauges, updates);
            updates[i].series in after && after[updates[i].series] == updates[i].value
  {
    if i < |updates| - 1 {
      GaugesHoldLast(gauges, updates[..|updates| - 1], i);
    }
  }

  /** A gauge without an update holds what it held before. */
  lemma {:induction false} GaugesKeepOthers(gauges: map<Series, real>, updates: seq<GaugeValue>, s: Series)
    requires forall i :: 0 <= i < |updates| ==> updates[i].series != s
    ensures var after := SetGauges(gauges, updates);
            (s in after <==> s in gauges) && (s in gauges ==> after[s] == gauges[s])
  {
    if updates != [] {
      GaugesKeepOthers(gauges, updates[..|updates| - 1], s);
    }
  }

  // ---- Conservation ----

  lemma {:induction false} LiveTelescopes(values: seq<Observation>, k: nat)
    requires 0 < k <= |values|
    requires forall i :: k <= i < |values| ==> values[i].mode == Live
    ensures values[k - 1].value + (Growth(values) - Growth(values[..k])) - (Loss(values) - Loss(values[..k]))
         == values[|values| - 1].value
    decreases |values|
  {
    if k == |values| {
      assert values[..k] == values;
    } else {
      var before := values[..|values| - 1];
      assert before[..k] == values[..k];
      LiveTelescopes(before, k);
    }
  }

  lemma {:induction false} SelectSplits(a: seq<Observation>, b: seq<Observation>, s: Series)
    ensures Select(a + b, s) == Select(a, s) + Select(b, s)
    ensures forall i :: 0 <= i < |Select(b, s)| ==> Select(b, s)[i] in b
  {
    if b == [] {
      assert a + b == a;
    } else {
      assert (a + b)[..|a + b| - 1] == a + b[..|b| - 1];
      SelectSplits(a, b[..|b| - 1], s);
    }
  }

  /**
   * Nothing is lost between two values: over any live stretch, the baseline before
   * it plus what it emitted minus what its resets dropped is the baseline after it.
   */
  lemma {:induction false} BaselineTelescopes(before: seq<Observation>, live: seq<Observation>, s: Series)
    requires forall o :: o in live ==> o.mode == Live
    requires s in Run(NOTHING, before).baselines
    ensures var e, f := Run(NOTHING, before), Run(NOTHING, before + live);
            && s in f.baselines
            && e.baselines[s] + (Total(f.increments, s) - Total(e.increments, s))
               - (Dropped(f.resets, s) - Dropped(e.resets, s)) == f.baselines[s]
  {
    TotalsArePositiveDifferences(before, s);
    TotalsArePositiveDifferences(before + live, s);
    SelectSplits(before, live, s);
    var own := Select(before, s);
    assert Select(before + live, s)[..|own|] == own;
    LiveTelescopes(Select(before + live, s), |own|);
  }

  // ---- Exactness ----

  ghost predicate Exact(e: Effect) {
    && (forall s :: s in e.baselines ==> e.baselines[s] <= MAX_EXACT_INTEGER)
    && (forall i :: 0 <= i < |e.increments| ==> 0 < e.increments[i].delta <= MAX_EXACT_INTEGER)
  }

  /**
   * If every counter value is an exact integer of at most 2^53, so are every
   * baseline and every increment; increments are never zero. They fit an int64.
   */
  lemma {:induction false} IncrementsAreExact(start: Effect, obs: seq<Observation>)
    requires Exact(start)
    requires forall i :: 0 <= i < |obs| ==> obs[i].value <= MAX_EXACT_INTEGER
    ensures Exact(Run(start, obs))
  {
    if obs != [] {
      IncrementsAreExact(start, obs[..|obs| - 1]);
    }
  }
}
