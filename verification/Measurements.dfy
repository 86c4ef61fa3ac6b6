/** Metric series and the normalized content of one report record. */
module Measurements {
  datatype Metric =
    | StorageIO | FSOperations | OpenFiles | CacheDownloads | CacheHits
    | CacheUsage | CacheUtilization | MemoryVirtual

  datatype Component = NoComponent | Libfuse | AzStorage

  datatype Direction = NoDirection | Read | Write

  datatype Operation =
    | NoOperation | CreateDir | DeleteDir | StreamDir | RenameDir | CreateFile | DeleteFile
    | RenameFile | TruncateFile | CreateLink | ReadLink | SyncFile | SyncDir | Chmod

  datatype Series = Series(metric: Metric, component: Component, direction: Direction, operation: Operation)

  datatype CounterValue = CounterValue(series: Series, value: nat)

  datatype GaugeValue = GaugeValue(series: Series, value: real)

  datatype NormalizedRecord = NormalizedRecord(
    counters: seq<CounterValue>, gauges: seq<GaugeValue>, ignored: nat, invalid: nat)

  /** The largest integer up to which a binary64 number represents every integer: 2^53. */
  const MAX_EXACT_INTEGER: nat := 0x20_0000_0000_0000

  datatype RecordMode = Baseline | Live
}
