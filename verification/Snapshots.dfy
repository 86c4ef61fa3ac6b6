/**
 * What a decoded record holds, and what its counters and gauges must be, key by key:
 * which series a key of a component stands for, which value it has there, and in which
 * order they come. Nothing here says how a record is normalized.
 */
module Snapshots {
  import opened Wrappers
  import opened Bytes
  import opened Measurements
  import opened Normalizer

  /** The value map of one message of a supported component. */
  datatype Snapshot =
    | AzStorageSnapshot(values: Values) | LibfuseSnapshot(values: Values) | FileCacheSnapshot(values: Values)

  /**
   * A record as it is decoded: the snapshots in message order, the memory usage if it
   * is there, and how many values of its other fields and messages are to be counted
   * as ignored and as invalid.
   */
  datatype Parts = Parts(snapshots: seq<Snapshot>, memory: Option<Json>, ignored: nat, invalid: nat)

  /** What normalization calls: decoding of a record's text, and the formats of gauges. */
  datatype Codec = Codec(
    decode: seq<Byte> -> Option<Parts>,
    parseCacheUsage: string -> Option<real>, parsePercentage: string -> Option<real>,
    parseMemorySize: string -> Option<real>)

  // ---- Tables ----

  /** The counter that a key stands for. */
  function CounterSeries(v: Snapshot, key: Key): Option<Series> {
    match v
    case AzStorageSnapshot(_) =>
      (match key
       case BytesDownloaded => Some(Series(StorageIO, NoComponent, Read, NoOperation))
       case BytesUploaded => Some(Series(StorageIO, NoComponent, Write, NoOperation))
       case _ => None)
    case LibfuseSnapshot(_) =>
      (match key
       case OperationKey(CreateDir) => Some(Series(FSOperations, NoComponent, NoDirection, CreateDir))
       case OperationKey(DeleteDir) => Some(Series(FSOperations, NoComponent, NoDirection, DeleteDir))
       case OperationKey(StreamDir) => Some(Series(FSOperations, NoComponent, NoDirection, StreamDir))
       case OperationKey(RenameDir) => Some(Series(FSOperations, NoComponent, NoDirection, RenameDir))
       case OperationKey(CreateFile) => Some(Series(FSOperations, NoComponent, NoDirection, CreateFile))
       case OperationKey(DeleteFile) => Some(Series(FSOperations, NoComponent, NoDirection, DeleteFile))
       case OperationKey(RenameFile) => Some(Series(FSOperations, NoComponent, NoDirection, RenameFile))
       case OperationKey(TruncateFile) => Some(Series(FSOperations, NoComponent, NoDirection, TruncateFile))
       case OperationKey(CreateLink) => Some(Series(FSOperations, NoComponent, NoDirection, CreateLink))
       case OperationKey(ReadLink) => Some(Series(FSOperations, NoComponent, NoDirection, ReadLink))
       case OperationKey(SyncFile) => Some(Series(FSOperations, NoComponent, NoDirection, SyncFile))
       case OperationKey(SyncDir) => Some(Series(FSOperations, NoComponent, NoDirection, SyncDir))
       case OperationKey(Chmod) => Some(Series(FSOperations, NoComponent, NoDirection, Chmod))
       case _ => None)
    case FileCacheSnapshot(_) =>
      (match key
       case FilesDownloaded => Some(Series(CacheDownloads, NoComponent, NoDirection, NoOperation))
       case FilesServedFromCache => Some(Series(CacheHits, NoComponent, NoDirection, NoOperation))
       case _ => None)
  }

  /** The gauge that a key stands for. */
  function GaugeSeries(v: Snapshot, key: Key): Option<Series> {
    match v
    case AzStorageSnapshot(_) =>
      if key == OpenFileHandles then Some(Series(OpenFiles, AzStorage, NoDirection, NoOperation)) else None
    case LibfuseSnapshot(_) =>
      if key == OpenFileHandles then Some(Series(OpenFiles, Libfuse, NoDirection, NoOperation)) else None
    case FileCacheSnapshot(_) =>
      if key == CacheUsageKey then Some(Series(CacheUsage, NoComponent, NoDirection, NoOperation))
      else if key == UsagePercent then Some(Series(CacheUtilization, NoComponent, NoDirection, NoOperation))
      else None
  }

  /** The place of a key among those of its snapshot. */
  function Rank(key: Key): nat {
    match key
    case BytesDownloaded => 0
    case BytesUploaded => 1
    case FilesDownloaded => 0
    case FilesServedFromCache => 1
    case CacheUsageKey => 0
    case UsagePercent => 1
    case OperationKey(operation) =>
      (match operation
       case CreateDir => 0
       case DeleteDir => 1
       case StreamDir => 2
       case RenameDir => 3
       case CreateFile => 4
       case DeleteFile => 5
       case RenameFile => 6
       case TruncateFile => 7
       case CreateLink => 8
       case ReadLink => 9
       case SyncFile => 10
       case SyncDir => 11
       case Chmod => 12
       case NoOperation => 13)
    case _ => 0
  }

  // ---- What a key says ----

  ghost predicate ReadsCounter(v: Snapshot, key: Key, c: CounterValue) {
    key in v.values && CounterSeries(v, key) == Some(c.series) && Holds(v.values[key], c.value)
  }

  /** Open files are integers; what the cache uses is text in a format of its own. */
  ghost predicate ReadsGauge(codec: Codec, v: Snapshot, key: Key, g: GaugeValue) {
    && key in v.values && GaugeSeries(v, key) == Some(g.series)
    && match key
       case OpenFileHandles => exists n: nat :: Holds(v.values[key], n) && g.value == n as real
       case CacheUsageKey => v.values[key].Text? && codec.parseCacheUsage(v.values[key].s) == Some(g.value)
       case _ => v.values[key].Text? && codec.parsePercentage(v.values[key].s) == Some(g.value)
  }

  // ---- Lists of what the keys say ----

  /** A key of one of the snapshots. */
  datatype Source = Source(index: nat, key: Key)

  predicate Earlier(a: Source, b: Source) {
    a.index < b.index || (a.index == b.index && Rank(a.key) < Rank(b.key))
  }

  ghost predicate Says<T>(snapshots: seq<Snapshot>, meaning: (Snapshot, Key, T) -> bool, source: Source, entry: T) {
    source.index < |snapshots| && meaning(snapshots[source.index], source.key, entry)
  }

  /**
   * The entries come from different sources in order, each is what its source says,
   * and of the sources looked at, each that says anything is there with what it says.
   */
  ghost predicate Lists<T(!new)>(snapshots: seq<Snapshot>, meaning: (Snapshot, Key, T) -> bool, looked: iset<Source>,
                                 sources: seq<Source>, entries: seq<T>) {
    && |sources| == |entries|
    && (forall i :: 0 <= i < |sources| ==> sources[i] in looked && Says(snapshots, meaning, sources[i], entries[i]))
    && (forall i, j :: 0 <= i < j < |sources| ==> Earlier(sources[i], sources[j]))
    && (forall source, entry :: source in looked && Says(snapshots, meaning, source, entry) ==>
          exists i :: 0 <= i < |sources| && sources[i] == source && entries[i] == entry)
  }

  ghost const EVERYWHERE: iset<Source> := iset s: Source | true

  /** What the record's memory usage adds. */
  ghost predicate ReadsMemory(codec: Codec, memory: Option<Json>, gauges: seq<GaugeValue>) {
    if memory.Some? && memory.value.Text? && codec.parseMemorySize(memory.value.s).Some? then
      gauges == [GaugeValue(Series(MemoryVirtual, NoComponent, NoDirection, NoOperation),
                            codec.parseMemorySize(memory.value.s).value)]
    else gauges == []
  }

  /** The values that no table knows. */
  function Unknown(v: Snapshot): set<Key> {
    set key | key in v.values && CounterSeries(v, key) == None && GaugeSeries(v, key) == None
  }

  /** How many keys the value maps hold together. */
  function Size(snapshots: seq<Snapshot>): nat {
    if snapshots == [] then 0 else Size(snapshots[..|snapshots| - 1]) + |snapshots[|snapshots| - 1].values|
  }

  function UnknownValues(snapshots: seq<Snapshot>): nat {
    if snapshots == [] then 0
    else UnknownValues(snapshots[..|snapshots| - 1]) + |Unknown(snapshots[|snapshots| - 1])|
  }

  /**
   * The record says what its parts say: counters are exactly the counter keys that hold
   * an exact integer, in message order; gauges likewise, the memory usage last; the
   * values of unknown keys are ignored, and what is left is invalid.
   */
  ghost predicate Reflects(codec: Codec, parts: Parts, record: NormalizedRecord) {
    && record.ignored == parts.ignored + UnknownValues(parts.snapshots)
    && |record.counters| + |record.gauges| + record.ignored + record.invalid
       == Size(parts.snapshots) + (if parts.memory.Some? then 1 else 0) + parts.ignored + parts.invalid
    && (exists sources :: Lists(parts.snapshots, ReadsCounter, EVERYWHERE, sources, record.counters))
    && (exists sources, own, memory ::
          && Lists(parts.snapshots, GaugeMeaning(codec), EVERYWHERE, sources, own)
          && ReadsMemory(codec, parts.memory, memory) && record.gauges == own + memory)
  }

  ghost function GaugeMeaning(codec: Codec): (Snapshot, Key, GaugeValue) -> bool {
    (v, key, g) => ReadsGauge(codec, v, key, g)
  }

  // ---- Building lists ----

  /** What a key adds to a list: its one entry, or nothing. */
  ghost predicate Adds<T(!new)>(meaning: (Snapshot, Key, T) -> bool, v: Snapshot, key: Key, entries: seq<T>) {
    if entries == [] then forall e :: !meaning(v, key, e)
    else |entries| == 1 && forall e :: meaning(v, key, e) <==> e == entries[0]
  }

  lemma ListsNothing<T(!new)>(snapshots: seq<Snapshot>, meaning: (Snapshot, Key, T) -> bool)
    ensures Lists(snapshots, meaning, iset{}, [], [])
  {
  }

  /** One source more, behind all that were looked at before. */
  lemma ListsMore<T(!new)>(snapshots: seq<Snapshot>, meaning: (Snapshot, Key, T) -> bool, looked: iset<Source>,
                           sources: seq<Source>, entries: seq<T>, source: Source, more: seq<T>)
    returns (all: seq<Source>)
    requires Lists(snapshots, meaning, looked, sources, entries)
    requires source.index < |snapshots| && Adds(meaning, snapshots[source.index], source.key, more)
    requires forall s :: s in looked ==> Earlier(s, source)
    ensures Lists(snapshots, meaning, looked + iset{source}, all, entries + more)
  {
    all := sources + if more == [] then [] else [source];
    forall s, e | s in looked + iset{source} && Says(snapshots, meaning, s, e)
      ensures exists i :: 0 <= i < |all| && all[i] == s && (entries + more)[i] == e
    {
      if s in looked {
        var i :| 0 <= i < |sources| && sources[i] == s && entries[i] == e;
        assert all[i] == s;
      } else {
        assert all[|sources|] == s;
      }
    }
  }

  /** Sources that say nothing may be counted as looked at. */
  lemma ListsSilent<T(!new)>(snapshots: seq<Snapshot>, meaning: (Snapshot, Key, T) -> bool, looked: iset<Source>,
                             sources: seq<Source>, entries: seq<T>, more: iset<Source>)
    requires Lists(snapshots, meaning, looked, sources, entries) && looked <= more
    requires forall s, e :: s in more && s !in looked ==> !Says(snapshots, meaning, s, e)
    ensures Lists(snapshots, meaning, more, sources, entries)
  {
  }

  /** The keys of the first n snapshots. */
  ghost function Before(n: nat): iset<Source> {
    iset s: Source | s.index < n
  }

  lemma NothingBefore()
    ensures Before(0) == iset{}
  {
  }

  lemma ListsEverywhere<T(!new)>(snapshots: seq<Snapshot>, meaning: (Snapshot, Key, T) -> bool,
                                 sources: seq<Source>, entries: seq<T>)
    requires Lists(snapshots, meaning, Before(|snapshots|), sources, entries)
    ensures Lists(snapshots, meaning, EVERYWHERE, sources, entries)
  {
    ListsSilent(snapshots, meaning, Before(|snapshots|), sources, entries, EVERYWHERE);
  }

  /** A snapshot in which only these two keys say anything. */
  lemma {:induction false} ListsTwo<T(!new)>(snapshots: seq<Snapshot>, meaning: (Snapshot, Key, T) -> bool, k: nat,
                                             before: seq<Source>, entries: seq<T>, a: Key, x: seq<T>, b: Key, y: seq<T>)
    returns (all: seq<Source>)
    requires k < |snapshots| && Lists(snapshots, meaning, Before(k), before, entries) && Rank(a) < Rank(b)
    requires Adds(meaning, snapshots[k], a, x) && Adds(meaning, snapshots[k], b, y)
    requires forall key, e :: key != a && key != b ==> !meaning(snapshots[k], key, e)
    ensures Lists(snapshots, meaning, Before(k + 1), all, entries + (x + y))
  {
    hide Lists, Adds;
    var looked := Before(k) + iset{Source(k, a)};
    all := ListsMore(snapshots, meaning, Before(k), before, entries, Source(k, a), x);
    all := ListsMore(snapshots, meaning, looked, all, entries + x, Source(k, b), y);
    assert entries + x + y == entries + (x + y);
    ListsSilent(snapshots, meaning, looked + iset{Source(k, b)}, all, entries + x + y, Before(k + 1));
  }

  /** A snapshot in which only this key says anything. */
  lemma {:induction false} ListsOne<T(!new)>(snapshots: seq<Snapshot>, meaning: (Snapshot, Key, T) -> bool, k: nat,
                                             before: seq<Source>, entries: seq<T>, a: Key, x: seq<T>)
    returns (all: seq<Source>)
    requires k < |snapshots| && Lists(snapshots, meaning, Before(k), before, entries)
    requires Adds(meaning, snapshots[k], a, x)
    requires forall key, e :: key != a ==> !meaning(snapshots[k], key, e)
    ensures Lists(snapshots, meaning, Before(k + 1), all, entries + x)
  {
    hide Lists, Adds;
    all := ListsMore(snapshots, meaning, Before(k), before, entries, Source(k, a), x);
    ListsSilent(snapshots, meaning, Before(k) + iset{Source(k, a)}, all, entries + x, Before(k + 1));
  }
}
