/**
 * From the value map of a component snapshot to counters and gauges. Integers are
 * accepted only when they are exact, and every key of the map is accounted for
 * once: as a counter, a gauge, an invalid value or an ignored one.
 */
module Normalizer {
  import opened Arithmetic
  import opened Wrappers
  import opened Measurements

  // ---- Exact integers ----

  type Digit = d: nat | d < 10

  /** The parts of a number token, section 6 of RFC 8259. */
  datatype NumberText = NumberText(negative: bool, whole: seq<Digit>, fraction: seq<Digit>, exponent: int)

  datatype Json = Null | Bool(b: bool) | Number(text: NumberText) | Text(s: string) | Array | Object

  function Pow10(n: nat): (p: nat)
    ensures p > 0
  {
    if n == 0 then 1 else 10 * Pow10(n - 1)
  }

  /** The number that a digit string denotes. */
  function DigitsValue(digits: seq<Digit>): nat {
    if digits == [] then 0 else 10 * DigitsValue(digits[..|digits| - 1]) + digits[|digits| - 1]
  }

  /** The exact value of a number token. */
  function ExactValue(t: NumberText): real {
    var mantissa := DigitsValue(t.whole + t.fraction);
    var scale := t.exponent - |t.fraction|;
    var size := if scale >= 0 then (mantissa * Pow10(scale)) as real
                else mantissa as real / Pow10(-scale) as real;
    if t.negative then -size else size
  }

  /**
   * The integer a value denotes, if it is a number that is integral, not negative
   * and exact in binary64.
   */
  function ParseSourceInteger(value: Json): Option<nat> {
    if !value.Number? then None
    else
      var t := value.text;
      var mantissa := DigitsValue(t.whole + t.fraction);
      var scale := t.exponent - |t.fraction|;
      if scale < 0 && mantissa % Pow10(-scale) != 0 then None
      else
        var n := if scale >= 0 then mantissa * Pow10(scale) else mantissa / Pow10(-scale);
        if (t.negative && n > 0) || n > MAX_EXACT_INTEGER then None else Some(n)
  }

  lemma DivisionIsExact(m: nat, p: nat, n: nat)
    requires p > 0
    ensures m as real / p as real == n as real <==> m % p == 0 && m / p == n
  {
    if m as real / p as real == n as real {
      assert m as real == n as real * p as real;
      RealProduct(n, p);
      assert m == n * p;
      MultiplesDivide(n, p);
    }
    if m % p == 0 && m / p == n {
      assert m == n * p;
      RealProduct(n, p);
    }
  }

  lemma RealProduct(n: nat, p: nat)
    ensures (n * p) as real == n as real * p as real
  {
  }

  /** The value without its sign is an integer exactly when the division leaves nothing. */
  lemma SizeIsExact(t: NumberText, n: nat)
    ensures var mantissa := DigitsValue(t.whole + t.fraction);
            var scale := t.exponent - |t.fraction|;
            ExactValue(t.(negative := false)) == n as real
            <==> if scale >= 0 then mantissa * Pow10(scale) == n
                 else mantissa % Pow10(-scale) == 0 && mantissa / Pow10(-scale) == n
  {
    var mantissa := DigitsValue(t.whole + t.fraction);
    var scale := t.exponent - |t.fraction|;
    if scale < 0 {
      DivisionIsExact(mantissa, Pow10(-scale), n);
    }
  }

  lemma SizeIsNotNegative(t: NumberText)
    ensures ExactValue(t.(negative := false)) >= 0.0
  {
    var mantissa := DigitsValue(t.whole + t.fraction);
    var scale := t.exponent - |t.fraction|;
    if scale < 0 {
      QuotientNotNegative(mantissa as real, Pow10(-scale) as real);
    }
  }

  lemma QuotientNotNegative(x: real, y: real)
    requires x >= 0.0 && y > 0.0
    ensures x / y >= 0.0
  {
  }

  /**
   * An integer is accepted if and only if it is the exact value of the number
   * token and at most 2^53. Fractional, negative and larger numbers are refused,
   * however they are spelled.
   */
  lemma SourceIntegerIsExact(t: NumberText, n: nat)
    ensures ParseSourceInteger(Number(t)) == Some(n) <==> ExactValue(t) == n as real && n <= MAX_EXACT_INTEGER
  {
    var size := t.(negative := false);
    SizeIsExact(t, n);
    SizeIsExact(t, 0);
    SizeIsNotNegative(t);
    assert ExactValue(t) == if t.negative then -ExactValue(size) else ExactValue(size);
    hide ExactValue;
  }

  /** The value is a number token for this integer, which is exact in binary64. */
  ghost predicate Holds(value: Json, n: nat) {
    value.Number? && ExactValue(value.text) == n as real && n <= 0x20_0000_0000_0000
  }

  lemma {:induction false} HoldsExactly(value: Json, n: nat)
    ensures ParseSourceInteger(value) == Some(n) <==> Holds(value, n)
  {
    hide ExactValue;
    if value.Number? {
      SourceIntegerIsExact(value.text, n);
    }
  }

  // ---- Spellings ----

  /** The decimal digits of a number. */
  function Decimal(n: nat): seq<Digit> {
    if n < 10 then [n] else Decimal(n / 10) + [n % 10]
  }

  /** An integer written out denotes itself. */
  lemma {:induction false} DecimalIsExact(n: nat)
    ensures DigitsValue(Decimal(n)) == n
    ensures ExactValue(NumberText(false, Decimal(n), [], 0)) == n as real
  {
    if n >= 10 {
      DecimalIsExact(n / 10);
      assert Decimal(n)[..|Decimal(n)| - 1] == Decimal(n / 10);
    } else {
      assert Decimal(n)[..0] == [];
    }
    assert Decimal(n) + [] == Decimal(n);
  }

  /** Moving the point by one digit is one in the exponent. */
  lemma {:induction false} PointMoves(negative: bool, whole: seq<Digit>, d: Digit, fraction: seq<Digit>, exponent: int)
    ensures ExactValue(NumberText(negative, whole, [d] + fraction, exponent))
         == ExactValue(NumberText(negative, whole + [d], fraction, exponent - 1))
  {
    assert whole + ([d] + fraction) == whole + [d] + fraction;
  }

  /** A zero at the end of a fraction changes nothing. */
  lemma {:induction false} TrailingZero(t: NumberText)
    ensures ExactValue(t.(fraction := t.fraction + [0])) == ExactValue(t)
  {
    hide DigitsValue, Pow10;
    var digits, scale := t.whole + t.fraction, t.exponent - |t.fraction|;
    assert t.whole + (t.fraction + [0]) == digits + [0];
    ZeroBehind(digits);
    Scaled(DigitsValue(digits), scale);
  }

  lemma ZeroBehind(digits: seq<Digit>)
    ensures DigitsValue(digits + [0]) == 10 * DigitsValue(digits)
  {
    assert (digits + [0])[..|digits|] == digits;
  }

  /** Ten times the digits at a tenth of the scale. */
  lemma Scaled(m: nat, scale: int)
    ensures (if scale > 0 then (10 * m * Pow10(scale - 1)) as real else (10 * m) as real / Pow10(1 - scale) as real)
         == if scale >= 0 then (m * Pow10(scale)) as real else m as real / Pow10(-scale) as real
  {
    if scale > 0 {
      TenTimes(m, Pow10(scale - 1));
    } else {
      TenthOf(m, Pow10(-scale));
    }
  }

  lemma TenTimes(m: nat, p: nat)
    ensures m * (10 * p) == 10 * m * p
  {
  }

  lemma TenthOf(m: nat, p: nat)
    requires p > 0
    ensures (10 * m) as real / (10 * p) as real == m as real / p as real
  {
  }

  // ---- Component snapshots ----

  /** The keys that snapshots use, and any other key. */
  datatype Key =
    | BytesDownloaded | BytesUploaded | OpenFileHandles | OperationKey(operation: Operation)
    | FilesDownloaded | FilesServedFromCache | CacheUsageKey | UsagePercent
    | OtherKey(name: string)

  type Values = map<Key, Json>

  const OPERATIONS: seq<Operation> :=
    [CreateDir, DeleteDir, StreamDir, RenameDir, CreateFile, DeleteFile, RenameFile,
     TruncateFile, CreateLink, ReadLink, SyncFile, SyncDir, Chmod]

  function Plain(metric: Metric): Series {
    Series(metric, NoComponent, NoDirection, NoOperation)
  }

  function OperationSeries(operation: Operation): Series {
    Plain(FSOperations).(operation := operation)
  }

  function CounterAt(values: Values, key: Key, series: Series): seq<CounterValue> {
    if key !in values then []
    else match ParseSourceInteger(values[key])
      case None => []
      case Some(n) => [CounterValue(series, n)]
  }

  /** What an integer key says: the integer it holds, if any. */
  lemma {:induction false} IntegerAt(values: Values, key: Key)
    ensures key in values ==> forall n: nat :: ParseSourceInteger(values[key]) == Some(n) <==> Holds(values[key], n)
  {
    hide ParseSourceInteger, Holds;
    if key in values {
      forall n: nat
        ensures ParseSourceInteger(values[key]) == Some(n) <==> Holds(values[key], n)
      {
        HoldsExactly(values[key], n);
      }
    }
  }

  function GaugeAt(values: Values, key: Key, series: Series): seq<GaugeValue> {
    if key !in values then []
    else match ParseSourceInteger(values[key])
      case None => []
      case Some(n) => [GaugeValue(series, n as real)]
  }

  function FormattedGaugeAt(values: Values, key: Key, series: Series, parse: string -> Option<real>): seq<GaugeValue> {
    if key !in values || !values[key].Text? then []
    else match parse(values[key].s)
      case None => []
      case Some(value) => [GaugeValue(series, value)]
  }

  /** The counters of the operations of the list, in list order. */
  function OperationCounters(values: Values, operations: seq<Operation>): seq<CounterValue> {
    if operations == [] then []
    else
      var last := operations[|operations| - 1];
      OperationCounters(values, operations[..|operations| - 1])
      + CounterAt(values, OperationKey(last), OperationSeries(last))
  }

  ghost predicate AllDiffer(operations: seq<Operation>) {
    forall i, j :: 0 <= i < j < |operations| ==> operations[i] != operations[j]
  }

  function OperationKeys(operations: seq<Operation>): set<Key> {
    set o | o in operations :: OperationKey(o)
  }

  const AZ_STORAGE_KEYS: set<Key> := {BytesDownloaded, BytesUploaded, OpenFileHandles}
  const FILE_CACHE_KEYS: set<Key> := {FilesDownloaded, FilesServedFromCache, CacheUsageKey, UsagePercent}
  const LIBFUSE_KEYS: set<Key> := {OpenFileHandles} + OperationKeys(OPERATIONS)

  /** The record under construction. */
  class Normalized {
    var counters: seq<CounterValue>
    var gauges: seq<GaugeValue>
    var ignored: nat
    var invalid: nat

    constructor ()
      ensures counters == [] && gauges == [] && ignored == 0 && invalid == 0
    {
      counters, gauges, ignored, invalid := [], [], 0, 0;
    }

    /** How many values have been accounted for. */
    function Accounted(): nat
      reads this
    {
      |counters| + |gauges| + ignored + invalid
    }

    /** All counters come from exact integers. */
    ghost predicate Exact()
      reads this
    {
      forall i :: 0 <= i < |counters| ==> counters[i].value <= MAX_EXACT_INTEGER
    }

    method IgnoreUnknown(values: Values, known: set<Key>)
      modifies this`ignored
      ensures ignored == old(ignored) + |values.Keys - known|
    {
      var rest := values.Keys;
      while rest != {}
        invariant rest <= values.Keys
        invariant ignored == old(ignored) + |values.Keys - rest - known|
        decreases rest
      {
        var key :| key in rest;
        if key in known {
          assert values.Keys - (rest - {key}) - known == values.Keys - rest - known;
        } else {
          assert values.Keys - (rest - {key}) - known == values.Keys - rest - known + {key};
          ignored := ignored + 1;
        }
        rest := rest - {key};
      }
      assert values.Keys - rest - known == values.Keys - known;
    }

    method AddCounter(values: Values, key: Key, series: Series)
      modifies this`counters, this`invalid
      ensures counters == old(counters) + CounterAt(values, key, series)
      ensures forall n: nat :: key in values && Holds(values[key], n) ==>
                counters == old(counters) + [CounterValue(series, n)]
      ensures key !in values || (forall n: nat :: !Holds(values[key], n)) ==> counters == old(counters)
      ensures invalid >= old(invalid)
      ensures Accounted() == old(Accounted()) + (if key in values then 1 else 0)
      ensures old(Exact()) ==> Exact()
    {
      hide Holds;
      IntegerAt(values, key);
      if key !in values {
        return;
      }
      var n := ParseSourceInteger(values[key]);
      if n == None {
        invalid := invalid + 1;
        return;
      }
      counters := counters + [CounterValue(series, n.value)];
    }

    method AddIntegerGauge(values: Values, key: Key, series: Series)
      modifies this`gauges, this`invalid
      ensures gauges == old(gauges) + GaugeAt(values, key, series)
      ensures forall n: nat :: key in values && Holds(values[key], n) ==>
                gauges == old(gauges) + [GaugeValue(series, n as real)]
      ensures key !in values || (forall n: nat :: !Holds(values[key], n)) ==> gauges == old(gauges)
      ensures invalid >= old(invalid)
      ensures Accounted() == old(Accounted()) + (if key in values then 1 else 0)
    {
      hide ParseSourceInteger, Holds;
      IntegerAt(values, key);
      if key !in values {
        return;
      }
      var n := ParseSourceInteger(values[key]);
      if n == None {
        invalid := invalid + 1;
        return;
      }
      gauges := gauges + [GaugeValue(series, n.value as real)];
    }

    method AddFormattedGauge(values: Values, key: Key, series: Series, parse: string -> Option<real>)
      modifies this`gauges, this`invalid
      ensures gauges == old(gauges) + FormattedGaugeAt(values, key, series, parse)
      ensures invalid >= old(invalid)
      ensures Accounted() == old(Accounted()) + (if key in values then 1 else 0)
    {
      if key !in values {
        return;
      }
      if !values[key].Text? {
        invalid := invalid + 1;
        return;
      }
      var value := parse(values[key].s);
      if value == None {
        invalid := invalid + 1;
        return;
      }
      gauges := gauges + [GaugeValue(series, value.value)];
    }

    /** Storage transfer: two counters and the open handles. */
    method NormalizeAzStorage(values: Values)
      modifies this
      ensures counters == old(counters)
                          + CounterAt(values, BytesDownloaded, Plain(StorageIO).(direction := Read))
                          + CounterAt(values, BytesUploaded, Plain(StorageIO).(direction := Write))
      ensures gauges == old(gauges) + GaugeAt(values, OpenFileHandles, Plain(OpenFiles).(component := AzStorage))
      ensures ignored == old(ignored) + |values.Keys - AZ_STORAGE_KEYS|
      ensures invalid >= old(invalid)
      ensures Accounted() == old(Accounted()) + |values|
      ensures old(Exact()) ==> Exact()
    {
      hide CounterAt, GaugeAt, FormattedGaugeAt, ParseSourceInteger;
      IgnoreUnknown(values, AZ_STORAGE_KEYS);
      AddCounter(values, BytesDownloaded, Plain(StorageIO).(direction := Read));
      AddCounter(values, BytesUploaded, Plain(StorageIO).(direction := Write));
      AddIntegerGauge(values, OpenFileHandles, Plain(OpenFiles).(component := AzStorage));
      AzStorageKeysSplit(values.Keys);
    }

    /** Filesystem operations: the open handles and a counter for each operation. */
    method NormalizeLibfuse(values: Values)
      modifies this
      ensures counters == old(counters) + OperationCounters(values, OPERATIONS)
      ensures gauges == old(gauges) + GaugeAt(values, OpenFileHandles, Plain(OpenFiles).(component := Libfuse))
      ensures ignored == old(ignored) + |values.Keys - LIBFUSE_KEYS|
      ensures invalid >= old(invalid)
      ensures Accounted() == old(Accounted()) + |values|
      ensures old(Exact()) ==> Exact()
    {
      hide CounterAt, GaugeAt, ParseSourceInteger, OperationKeys, OperationCounters;
      OperationsDiffer();
      LibfuseKeysSplit(values.Keys);
      IgnoreUnknown(values, LIBFUSE_KEYS);
      AddIntegerGauge(values, OpenFileHandles, Plain(OpenFiles).(component := Libfuse));
      AddOperations(values, OPERATIONS);
    }

    method AddOperations(values: Values, operations: seq<Operation>)
      requires AllDiffer(operations)
      modifies this`counters, this`invalid
      ensures counters == old(counters) + OperationCounters(values, operations)
      ensures invalid >= old(invalid)
      ensures Accounted() == old(Accounted()) + |values.Keys * OperationKeys(operations)|
      ensures old(Exact()) ==> Exact()
    {
      hide CounterAt, OperationKeys, OperationCounters, AllDiffer, OperationSeries, Exact, Accounted;
      NoOperations(values);
      for i := 0 to |operations|
        invariant counters == old(counters) + OperationCounters(values, operations[..i])
        invariant invalid >= old(invalid)
        invariant Accounted() == old(Accounted()) + |values.Keys * OperationKeys(operations[..i])|
        invariant old(Exact()) ==> Exact()
      {
        var operation := operations[i];
        AddCounter(values, OperationKey(operation), OperationSeries(operation));
        NextOperation(old(counters), values, operations, i);
        NextKey(values.Keys, operations, i);
      }
      assert operations[..|operations|] == operations;
    }

    /** File cache: two counters and two formatted gauges. */
    method NormalizeFileCache(values: Values, parseCacheUsage: string -> Option<real>,
                              parsePercentage: string -> Option<real>)
      modifies this
      ensures counters == old(counters)
                          + CounterAt(values, FilesDownloaded, Plain(CacheDownloads))
                          + CounterAt(values, FilesServedFromCache, Plain(CacheHits))
      ensures gauges == old(gauges)
                        + FormattedGaugeAt(values, CacheUsageKey, Plain(CacheUsage), parseCacheUsage)
                        + FormattedGaugeAt(values, UsagePercent, Plain(CacheUtilization), parsePercentage)
      ensures ignored == old(ignored) + |values.Keys - FILE_CACHE_KEYS|
      ensures invalid >= old(invalid)
      ensures Accounted() == old(Accounted()) + |values|
      ensures old(Exact()) ==> Exact()
    {
      hide CounterAt, GaugeAt, FormattedGaugeAt, ParseSourceInteger;
      IgnoreUnknown(values, FILE_CACHE_KEYS);
      AddCounter(values, FilesDownloaded, Plain(CacheDownloads));
      AddCounter(values, FilesServedFromCache, Plain(CacheHits));
      AddFormattedGauge(values, CacheUsageKey, Plain(CacheUsage), parseCacheUsage);
      AddFormattedGauge(values, UsagePercent, Plain(CacheUtilization), parsePercentage);
      FileCacheKeysSplit(values.Keys);
    }
  }

  lemma OperationsDiffer()
    ensures AllDiffer(OPERATIONS)
    ensures OpenFileHandles !in OperationKeys(OPERATIONS)
  {
  }

  lemma NoOperations(values: Values)
    ensures OperationCounters(values, []) == [] && |values.Keys * OperationKeys([])| == 0
  {
    assert values.Keys * OperationKeys([]) == {};
  }

  lemma NextOperation(start: seq<CounterValue>, values: Values, operations: seq<Operation>, i: nat)
    requires i < |operations|
    ensures start + OperationCounters(values, operations[..i + 1])
         == start + OperationCounters(values, operations[..i])
            + CounterAt(values, OperationKey(operations[i]), OperationSeries(operations[i]))
  {
    hide CounterAt;
    assert operations[..i + 1][..i] == operations[..i];
  }

  /** One key more has been looked for. */
  lemma NextKey(keys: set<Key>, operations: seq<Operation>, i: nat)
    requires i < |operations|
    requires AllDiffer(operations)
    ensures |keys * OperationKeys(operations[..i + 1])|
         == |keys * OperationKeys(operations[..i])| + One(keys, OperationKey(operations[i]))
  {
    assert operations[..i + 1] == operations[..i] + [operations[i]];
    CountOne(keys, OperationKeys(operations[..i]), OperationKey(operations[i]), OperationKeys(operations[..i + 1]));
  }

  function One(keys: set<Key>, key: Key): nat {
    if key in keys then 1 else 0
  }

  lemma AzStorageKeysSplit(keys: set<Key>)
    ensures |keys| == |keys - AZ_STORAGE_KEYS|
                      + One(keys, BytesDownloaded) + One(keys, BytesUploaded) + One(keys, OpenFileHandles)
  {
    KeysSplit(keys, AZ_STORAGE_KEYS);
    CountOne(keys, {}, BytesDownloaded, {BytesDownloaded});
    CountOne(keys, {BytesDownloaded}, BytesUploaded, {BytesDownloaded, BytesUploaded});
    CountOne(keys, {BytesDownloaded, BytesUploaded}, OpenFileHandles, AZ_STORAGE_KEYS);
  }

  lemma LibfuseKeysSplit(keys: set<Key>)
    ensures |keys| == |keys - LIBFUSE_KEYS|
                      + (if OpenFileHandles in keys then 1 else 0) + |keys * OperationKeys(OPERATIONS)|
  {
    OperationsDiffer();
    KeysSplit(keys, LIBFUSE_KEYS);
    hide OperationKeys;
    assert LIBFUSE_KEYS == OperationKeys(OPERATIONS) + {OpenFileHandles};
    CountOne(keys, OperationKeys(OPERATIONS), OpenFileHandles, LIBFUSE_KEYS);
  }

  lemma FileCacheKeysSplit(keys: set<Key>)
    ensures |keys| == |keys - FILE_CACHE_KEYS|
                      + One(keys, FilesDownloaded) + One(keys, FilesServedFromCache)
                      + One(keys, CacheUsageKey) + One(keys, UsagePercent)
  {
    KeysSplit(keys, FILE_CACHE_KEYS);
    var two, three := {FilesDownloaded, FilesServedFromCache}, {FilesDownloaded, FilesServedFromCache, CacheUsageKey};
    CountOne(keys, {}, FilesDownloaded, {FilesDownloaded});
    CountOne(keys, {FilesDownloaded}, FilesServedFromCache, two);
    CountOne(keys, two, CacheUsageKey, three);
    CountOne(keys, three, UsagePercent, FILE_CACHE_KEYS);
  }

  lemma KeysSplit(keys: set<Key>, known: set<Key>)
    ensures |keys| == |keys - known| + |keys * known|
  {
    assert keys == (keys - known) + keys * known;
  }

  lemma CountOne(keys: set<Key>, known: set<Key>, key: Key, more: set<Key>)
    requires key !in known && more == known + {key}
    ensures |keys * more| == |keys * known| + One(keys, key)
  {
    if key in keys {
      assert keys * more == keys * known + {key};
    } else {
      assert keys * more == keys * known;
    }
  }
}
