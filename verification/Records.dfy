/**
 * A whole report record: its component snapshots one after the other, its memory
 * usage, and what its other fields add. Whatever the records are decoded from, every
 * counter in them is an exact integer.
 */
module Records {
  import opened Wrappers
  import opened Bytes
  import opened Measurements
  import opened Normalizer
  import opened Snapshots

  // ---- Specification ----

  function SnapshotCounters(v: Snapshot): seq<CounterValue> {
    match v
    case AzStorageSnapshot(values) =>
      CounterAt(values, BytesDownloaded, Plain(StorageIO).(direction := Read))
      + CounterAt(values, BytesUploaded, Plain(StorageIO).(direction := Write))
    case LibfuseSnapshot(values) => OperationCounters(values, OPERATIONS)
    case FileCacheSnapshot(values) =>
      CounterAt(values, FilesDownloaded, Plain(CacheDownloads))
      + CounterAt(values, FilesServedFromCache, Plain(CacheHits))
  }

  function SnapshotGauges(codec: Codec, v: Snapshot): seq<GaugeValue> {
    match v
    case AzStorageSnapshot(values) => GaugeAt(values, OpenFileHandles, Plain(OpenFiles).(component := AzStorage))
    case LibfuseSnapshot(values) => GaugeAt(values, OpenFileHandles, Plain(OpenFiles).(component := Libfuse))
    case FileCacheSnapshot(values) =>
      FormattedGaugeAt(values, CacheUsageKey, Plain(CacheUsage), codec.parseCacheUsage)
      + FormattedGaugeAt(values, UsagePercent, Plain(CacheUtilization), codec.parsePercentage)
  }

  function KnownKeys(v: Snapshot): set<Key> {
    match v
    case AzStorageSnapshot(_) => AZ_STORAGE_KEYS
    case LibfuseSnapshot(_) => LIBFUSE_KEYS
    case FileCacheSnapshot(_) => FILE_CACHE_KEYS
  }

  function Counters(snapshots: seq<Snapshot>): seq<CounterValue> {
    if snapshots == [] then []
    else Counters(snapshots[..|snapshots| - 1]) + SnapshotCounters(snapshots[|snapshots| - 1])
  }

  function Gauges(codec: Codec, snapshots: seq<Snapshot>): seq<GaugeValue> {
    if snapshots == [] then []
    else Gauges(codec, snapshots[..|snapshots| - 1]) + SnapshotGauges(codec, snapshots[|snapshots| - 1])
  }

  function Ignored(snapshots: seq<Snapshot>): nat {
    if snapshots == [] then 0
    else
      var last := snapshots[|snapshots| - 1];
      Ignored(snapshots[..|snapshots| - 1]) + |last.values.Keys - KnownKeys(last)|
  }

  function MemoryGauge(codec: Codec, memory: Option<Json>): seq<GaugeValue> {
    if memory.None? || !memory.value.Text? then []
    else match codec.parseMemorySize(memory.value.s)
      case None => []
      case Some(size) => [GaugeValue(Plain(MemoryVirtual), size)]
  }

  /**
   * `record` is the normalized form of the parts: counters and gauges in message
   * order, and every other value counted once, as ignored or as invalid.
   */
  ghost predicate Normalizes(codec: Codec, parts: Parts, record: NormalizedRecord) {
    && record.counters == Counters(parts.snapshots)
    && record.gauges == Gauges(codec, parts.snapshots) + MemoryGauge(codec, parts.memory)
    && record.ignored == parts.ignored + Ignored(parts.snapshots)
    && |record.counters| + |record.gauges| + record.ignored + record.invalid
       == Size(parts.snapshots) + (if parts.memory.Some? then 1 else 0) + parts.ignored + parts.invalid
  }

  /** The only record that can satisfy Normalizes. */
  function NormalForm(codec: Codec, parts: Parts): NormalizedRecord {
    var counters := Counters(parts.snapshots);
    var gauges := Gauges(codec, parts.snapshots) + MemoryGauge(codec, parts.memory);
    var ignored := parts.ignored + Ignored(parts.snapshots);
    var values := Size(parts.snapshots) + (if parts.memory.Some? then 1 else 0) + parts.ignored + parts.invalid;
    var rest := values - |counters| - |gauges| - ignored;
    NormalizedRecord(counters, gauges, ignored, if rest < 0 then 0 else rest)
  }

  /** The normalized form of a record's text; None exactly if it does not decode. */
  function Normalize(codec: Codec, raw: seq<Byte>): Option<NormalizedRecord> {
    match codec.decode(raw)
    case None => None
    case Some(parts) => Some(NormalForm(codec, parts))
  }

  lemma NormalizesOnce(codec: Codec, parts: Parts, record: NormalizedRecord)
    requires Normalizes(codec, parts, record)
    ensures record == NormalForm(codec, parts)
  {
  }

  // ---- Meaning ----

  /** An integer key adds its one counter, or nothing. */
  lemma CounterAdds(v: Snapshot, key: Key, series: Series)
    requires CounterSeries(v, key) == Some(series)
    ensures Adds(ReadsCounter, v, key, CounterAt(v.values, key, series))
  {
    hide ParseSourceInteger, Holds;
    IntegerAt(v.values, key);
  }

  lemma GaugeAdds(codec: Codec, v: Snapshot, series: Series)
    requires GaugeSeries(v, OpenFileHandles) == Some(series)
    ensures Adds(GaugeMeaning(codec), v, OpenFileHandles, GaugeAt(v.values, OpenFileHandles, series))
  {
    hide ParseSourceInteger, Holds;
    IntegerAt(v.values, OpenFileHandles);
  }

  lemma FormattedGaugeAdds(codec: Codec, v: Snapshot, key: Key, series: Series)
    requires GaugeSeries(v, key) == Some(series) && key in {CacheUsageKey, UsagePercent}
    ensures var parse := if key == CacheUsageKey then codec.parseCacheUsage else codec.parsePercentage;
            Adds(GaugeMeaning(codec), v, key, FormattedGaugeAt(v.values, key, series, parse))
  {
  }

  /** The operation keys that come first in the table. */
  ghost function Looked(k: nat, n: nat): iset<Source>
    requires n <= |OPERATIONS|
  {
    Before(k) + iset i | 0 <= i < n :: Source(k, OperationKey(OPERATIONS[i]))
  }

  lemma LookedMore(k: nat, n: nat)
    requires n < |OPERATIONS|
    ensures Looked(k, n + 1) == Looked(k, n) + iset{Source(k, OperationKey(OPERATIONS[n]))}
    ensures forall s :: s in Looked(k, n) ==> Earlier(s, Source(k, OperationKey(OPERATIONS[n])))
  {
    RanksOfOperations();
    hide Rank;
  }

  /** The counters of the first operations of the table. */
  lemma {:induction false} OperationsList(snapshots: seq<Snapshot>, k: nat, n: nat, before: seq<Source>,
                                          counters: seq<CounterValue>)
    returns (sources: seq<Source>)
    requires k < |snapshots| && snapshots[k].LibfuseSnapshot? && n <= |OPERATIONS|
    requires Lists(snapshots, ReadsCounter, Before(k), before, counters)
    ensures Lists(snapshots, ReadsCounter, Looked(k, n), sources,
                  counters + OperationCounters(snapshots[k].values, OPERATIONS[..n]))
  {
    hide Lists, CounterAt, Adds, Rank, CounterSeries, OperationSeries, Earlier, OperationCounters;
    NoOperations(snapshots[k].values);
    if n == 0 {
      sources := before;
      assert Looked(k, 0) == Before(k);
      assert counters + [] == counters;
    } else {
      hide Looked, Before;
      sources := OperationsList(snapshots, k, n - 1, before, counters);
      var operation := OPERATIONS[n - 1];
      RanksOfOperations();
      LookedMore(k, n - 1);
      CounterAdds(snapshots[k], OperationKey(operation), OperationSeries(operation));
      sources := ListsMore(snapshots, ReadsCounter, Looked(k, n - 1), sources,
                           counters + OperationCounters(snapshots[k].values, OPERATIONS[..n - 1]),
                           Source(k, OperationKey(operation)),
                           CounterAt(snapshots[k].values, OperationKey(operation), OperationSeries(operation)));
      NextOperation(counters, snapshots[k].values, OPERATIONS, n - 1);
    }
  }

  /** The list of operations is in the order of the table, and leaves none out. */
  lemma RanksOfOperations()
    ensures forall i :: 0 <= i < |OPERATIONS| ==> Rank(OperationKey(OPERATIONS[i])) == i
    ensures forall v: Snapshot, i :: v.LibfuseSnapshot? && 0 <= i < |OPERATIONS| ==>
              CounterSeries(v, OperationKey(OPERATIONS[i])) == Some(OperationSeries(OPERATIONS[i]))
    ensures forall v: Snapshot, key :: v.LibfuseSnapshot? && CounterSeries(v, key).Some? ==>
              exists i :: 0 <= i < |OPERATIONS| && key == OperationKey(OPERATIONS[i])
  {
    forall v: Snapshot, key | v.LibfuseSnapshot? && CounterSeries(v, key).Some?
      ensures exists i :: 0 <= i < |OPERATIONS| && key == OperationKey(OPERATIONS[i])
    {
      assert key == OperationKey(OPERATIONS[Rank(key)]);
    }
  }

  lemma {:induction false} SnapshotLists(snapshots: seq<Snapshot>, k: nat, before: seq<Source>,
                                         counters: seq<CounterValue>)
    returns (sources: seq<Source>)
    requires k < |snapshots| && Lists(snapshots, ReadsCounter, Before(k), before, counters)
    ensures Lists(snapshots, ReadsCounter, Before(k + 1), sources, counters + SnapshotCounters(snapshots[k]))
  {
    hide Lists, CounterAt, Adds, OperationCounters, Holds;
    var v := snapshots[k];
    match v {
      case AzStorageSnapshot(values) =>
        var read, write := Plain(StorageIO).(direction := Read), Plain(StorageIO).(direction := Write);
        CounterAdds(v, BytesDownloaded, read);
        CounterAdds(v, BytesUploaded, write);
        sources := ListsTwo(snapshots, ReadsCounter, k, before, counters,
                            BytesDownloaded, CounterAt(values, BytesDownloaded, read),
                            BytesUploaded, CounterAt(values, BytesUploaded, write));
      case LibfuseSnapshot(values) =>
        var looked := Looked(k, |OPERATIONS|);
        sources := OperationsList(snapshots, k, |OPERATIONS|, before, counters);
        assert OPERATIONS[..|OPERATIONS|] == OPERATIONS;
        RanksOfOperations();
        ListsSilent(snapshots, ReadsCounter, looked, sources, counters + OperationCounters(values, OPERATIONS),
                    Before(k + 1));
      case FileCacheSnapshot(values) =>
        CounterAdds(v, FilesDownloaded, Plain(CacheDownloads));
        CounterAdds(v, FilesServedFromCache, Plain(CacheHits));
        sources := ListsTwo(snapshots, ReadsCounter, k, before, counters,
                            FilesDownloaded, CounterAt(values, FilesDownloaded, Plain(CacheDownloads)),
                            FilesServedFromCache, CounterAt(values, FilesServedFromCache, Plain(CacheHits)));
    }
  }

  lemma {:induction false} SnapshotListsGauges(codec: Codec, snapshots: seq<Snapshot>, k: nat, before: seq<Source>,
                                               gauges: seq<GaugeValue>)
    returns (sources: seq<Source>)
    requires k < |snapshots| && Lists(snapshots, GaugeMeaning(codec), Before(k), before, gauges)
    ensures Lists(snapshots, GaugeMeaning(codec), Before(k + 1), sources, gauges + SnapshotGauges(codec, snapshots[k]))
  {
    hide Lists, GaugeAt, FormattedGaugeAt, Adds, Holds;
    var v := snapshots[k];
    if v.FileCacheSnapshot? {
      FormattedGaugeAdds(codec, v, CacheUsageKey, Plain(CacheUsage));
      FormattedGaugeAdds(codec, v, UsagePercent, Plain(CacheUtilization));
      sources := ListsTwo(snapshots, GaugeMeaning(codec), k, before, gauges,
                          CacheUsageKey,
                          FormattedGaugeAt(v.values, CacheUsageKey, Plain(CacheUsage), codec.parseCacheUsage),
                          UsagePercent,
                          FormattedGaugeAt(v.values, UsagePercent, Plain(CacheUtilization), codec.parsePercentage));
    } else {
      var series := Plain(OpenFiles).(component := if v.AzStorageSnapshot? then AzStorage else Libfuse);
      GaugeAdds(codec, v, series);
      sources := ListsOne(snapshots, GaugeMeaning(codec), k, before, gauges, OpenFileHandles,
                          GaugeAt(v.values, OpenFileHandles, series));
    }
  }

  lemma {:induction false} CountersList(snapshots: seq<Snapshot>, n: nat) returns (sources: seq<Source>)
    requires n <= |snapshots|
    ensures Lists(snapshots, ReadsCounter, Before(n), sources, Counters(snapshots[..n]))
  {
    hide Lists, SnapshotCounters;
    if n == 0 {
      NothingBefore();
      ListsNothing(snapshots, ReadsCounter);
      sources := [];
    } else {
      sources := CountersList(snapshots, n - 1);
      sources := SnapshotLists(snapshots, n - 1, sources, Counters(snapshots[..n - 1]));
      assert snapshots[..n][..n - 1] == snapshots[..n - 1];
    }
  }

  lemma {:induction false} GaugesList(codec: Codec, snapshots: seq<Snapshot>, n: nat) returns (sources: seq<Source>)
    requires n <= |snapshots|
    ensures Lists(snapshots, GaugeMeaning(codec), Before(n), sources, Gauges(codec, snapshots[..n]))
  {
    hide Lists, SnapshotGauges;
    if n == 0 {
      NothingBefore();
      ListsNothing(snapshots, GaugeMeaning(codec));
      sources := [];
    } else {
      sources := GaugesList(codec, snapshots, n - 1);
      sources := SnapshotListsGauges(codec, snapshots, n - 1, sources, Gauges(codec, snapshots[..n - 1]));
      assert snapshots[..n][..n - 1] == snapshots[..n - 1];
    }
  }

  /** The ignored keys are those that no table knows. */
  lemma IgnoredAreUnknown(v: Snapshot)
    ensures v.values.Keys - KnownKeys(v) == Unknown(v)
  {
    RanksOfOperations();
  }

  lemma {:induction false} IgnoredIsUnknown(snapshots: seq<Snapshot>)
    ensures Ignored(snapshots) == UnknownValues(snapshots)
  {
    hide KnownKeys, Unknown;
    if snapshots != [] {
      IgnoredIsUnknown(snapshots[..|snapshots| - 1]);
      IgnoredAreUnknown(snapshots[|snapshots| - 1]);
    }
  }

  /** A normalized record says what its parts say. */
  lemma {:induction false} NormalizedReflects(codec: Codec, parts: Parts, record: NormalizedRecord)
    requires Normalizes(codec, parts, record)
    ensures Reflects(codec, parts, record)
  {
    hide Lists, Counters, Gauges, Ignored, UnknownValues, Size;
    IgnoredIsUnknown(parts.snapshots);
    var all := parts.snapshots;
    var sources := CountersList(all, |all|);
    var others := GaugesList(codec, all, |all|);
    assert all[..|all|] == all;
    ListsEverywhere(all, ReadsCounter, sources, Counters(all));
    ListsEverywhere(all, GaugeMeaning(codec), others, Gauges(codec, all));
    assert ReadsMemory(codec, parts.memory, MemoryGauge(codec, parts.memory));
  }

  // ---- Normalizing ----

  /** Adds one snapshot to the record under construction. */
  method NormalizeSnapshot(codec: Codec, v: Snapshot, record: Normalized)
    modifies record
    ensures record.counters == old(record.counters) + SnapshotCounters(v)
    ensures record.gauges == old(record.gauges) + SnapshotGauges(codec, v)
    ensures record.ignored == old(record.ignored) + |v.values.Keys - KnownKeys(v)|
    ensures record.invalid >= old(record.invalid)
    ensures record.Accounted() == old(record.Accounted()) + |v.values|
  {
    hide CounterAt, GaugeAt, FormattedGaugeAt, OperationCounters, Normalized.Exact;
    match v {
      case AzStorageSnapshot(values) => record.NormalizeAzStorage(values);
      case LibfuseSnapshot(values) => record.NormalizeLibfuse(values);
      case FileCacheSnapshot(values) =>
        record.NormalizeFileCache(values, codec.parseCacheUsage, codec.parsePercentage);
    }
  }

  /** Adds the memory usage: a gauge, or an invalid value. */
  method NormalizeMemory(codec: Codec, memory: Option<Json>, record: Normalized)
    modifies record`gauges, record`invalid
    ensures record.gauges == old(record.gauges) + MemoryGauge(codec, memory)
    ensures record.Accounted() == old(record.Accounted()) + if memory.Some? then 1 else 0
  {
    if memory.None? {
      return;
    }
    if !memory.value.Text? {
      record.invalid := record.invalid + 1;
      return;
    }
    var size := codec.parseMemorySize(memory.value.s);
    if size.None? {
      record.invalid := record.invalid + 1;
      return;
    }
    record.gauges := record.gauges + [GaugeValue(Plain(MemoryVirtual), size.value)];
  }

  /** What one snapshot more adds. */
  lemma OneMore(codec: Codec, snapshots: seq<Snapshot>, i: nat)
    requires i < |snapshots|
    ensures Counters(snapshots[..i + 1]) == Counters(snapshots[..i]) + SnapshotCounters(snapshots[i])
    ensures Gauges(codec, snapshots[..i + 1]) == Gauges(codec, snapshots[..i]) + SnapshotGauges(codec, snapshots[i])
    ensures Ignored(snapshots[..i + 1])
         == Ignored(snapshots[..i]) + |snapshots[i].values.Keys - KnownKeys(snapshots[i])|
    ensures Size(snapshots[..i + 1]) == Size(snapshots[..i]) + |snapshots[i].values|
  {
    hide SnapshotCounters, SnapshotGauges, KnownKeys;
    assert snapshots[..i + 1][..i] == snapshots[..i];
  }

  /** Adds the snapshots in message order. */
  method NormalizeSnapshots(codec: Codec, snapshots: seq<Snapshot>, record: Normalized)
    requires record.counters == [] && record.gauges == []
    modifies record
    ensures record.counters == Counters(snapshots) && record.gauges == Gauges(codec, snapshots)
    ensures record.ignored == old(record.ignored) + Ignored(snapshots)
    ensures record.Accounted() == old(record.Accounted()) + Size(snapshots)
  {
    hide SnapshotCounters, SnapshotGauges, KnownKeys, Counters, Gauges, Ignored, Size, Normalized.Exact;
    NothingNormalized(codec);
    for i := 0 to |snapshots|
      invariant record.counters == Counters(snapshots[..i])
      invariant record.gauges == Gauges(codec, snapshots[..i])
      invariant record.ignored == old(record.ignored) + Ignored(snapshots[..i])
      invariant record.Accounted() == old(record.Accounted()) + Size(snapshots[..i])
    {
      OneMore(codec, snapshots, i);
      NormalizeSnapshot(codec, snapshots[i], record);
    }
    assert snapshots[..|snapshots|] == snapshots;
  }

  lemma NothingNormalized(codec: Codec)
    ensures Counters([]) == [] && Gauges(codec, []) == [] && Ignored([]) == 0 && Size([]) == 0
  {
  }

  /** Normalizes a record. Every value is accounted for once. */
  method NormalizeRecord(codec: Codec, raw: seq<Byte>) returns (r: Option<NormalizedRecord>)
    ensures r == Normalize(codec, raw)
    ensures r.Some? <==> codec.decode(raw).Some?
    ensures r.Some? ==> Normalizes(codec, codec.decode(raw).value, r.value)
    ensures r.Some? ==> Reflects(codec, codec.decode(raw).value, r.value)
  {
    hide Reflects, Counters, Gauges, Ignored, Size, MemoryGauge, Normalized.Exact;
    var decoded := codec.decode(raw);
    if decoded.None? {
      return None;
    }
    var parts := decoded.value;
    var record := new Normalized();
    record.ignored, record.invalid := parts.ignored, parts.invalid;
    NormalizeSnapshots(codec, parts.snapshots, record);
    NormalizeMemory(codec, parts.memory, record);
    var normalized := NormalizedRecord(record.counters, record.gauges, record.ignored, record.invalid);
    NormalizesOnce(codec, parts, normalized);
    NormalizedReflects(codec, parts, normalized);
    return Some(normalized);
  }

  // ---- Exactness ----

  ghost predicate AllExact(counters: seq<CounterValue>) {
    forall i :: 0 <= i < |counters| ==> counters[i].value <= MAX_EXACT_INTEGER
  }

  lemma CounterIsExact(values: Values, key: Key, series: Series)
    ensures AllExact(CounterAt(values, key, series))
  {
  }

  lemma {:induction false} OperationsAreExact(values: Values, operations: seq<Operation>)
    ensures AllExact(OperationCounters(values, operations))
  {
    hide CounterAt;
    if operations != [] {
      var last := operations[|operations| - 1];
      OperationsAreExact(values, operations[..|operations| - 1]);
      CounterIsExact(values, OperationKey(last), OperationSeries(last));
    }
  }

  lemma {:induction false} SnapshotIsExact(v: Snapshot)
    ensures AllExact(SnapshotCounters(v))
  {
    hide CounterAt, OperationCounters;
    match v
    case AzStorageSnapshot(values) =>
      CounterIsExact(values, BytesDownloaded, Plain(StorageIO).(direction := Read));
      CounterIsExact(values, BytesUploaded, Plain(StorageIO).(direction := Write));
    case LibfuseSnapshot(values) => OperationsAreExact(values, OPERATIONS);
    case FileCacheSnapshot(values) =>
      CounterIsExact(values, FilesDownloaded, Plain(CacheDownloads));
      CounterIsExact(values, FilesServedFromCache, Plain(CacheHits));
  }

  /** Whatever a record is decoded from, its counters are exact integers of at most 2^53. */
  lemma {:induction false} CountersAreExact(snapshots: seq<Snapshot>)
    ensures AllExact(Counters(snapshots))
  {
    hide SnapshotCounters;
    if snapshots != [] {
      CountersAreExact(snapshots[..|snapshots| - 1]);
      SnapshotIsExact(snapshots[|snapshots| - 1]);
    }
  }

  lemma {:induction false} NormalizedIsExact(codec: Codec, raw: seq<Byte>)
    ensures Normalize(codec, raw).Some? ==> AllExact(Normalize(codec, raw).value.counters)
  {
    hide Counters;
    if codec.decode(raw).Some? {
      CountersAreExact(codec.decode(raw).value.snapshots);
    }
  }
}
