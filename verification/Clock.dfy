/**
 * The creation time of the monitored process, from the boot time in seconds and
 * its start in clock ticks. Machine integers wrap; the result is proved exact.
 */
module Clock {
  import opened Arithmetic
  import opened Wrappers

  type Uint64 = n: nat | n < 0x1_0000_0000_0000_0000

  const MAX_INT64: int := 0x7FFF_FFFF_FFFF_FFFF
  const SECOND: nat := 1_000_000_000

  type Int64 = n: int | -MAX_INT64 - 1 <= n <= MAX_INT64

  function WrapUint64(n: nat): Uint64 {
    n % 0x1_0000_0000_0000_0000
  }

  function WrapInt64(n: int): Int64 {
    (n + MAX_INT64 + 1) % 0x1_0000_0000_0000_0000 - MAX_INT64 - 1
  }

  datatype Instant = Instant(seconds: Int64, nanoseconds: nat) {
    /** Nanoseconds since the epoch. */
    function Total(): int {
      seconds * SECOND + nanoseconds
    }
  }

  /** The tick rate that the process identity reader accepts. */
  predicate ValidTicks(clockTicks: Uint64) {
    0 < clockTicks <= SECOND
  }

  /** Division of unsigned integers. */
  function Quotient(n: nat, d: nat): nat
    requires d > 0
  {
    n / d
  }

  function CreationTime(bootTime: Int64, startTicks: Uint64, clockTicks: Uint64): Option<Instant>
    requires clockTicks > 0
  {
    var wholeSeconds := Quotient(startTicks, clockTicks);
    if wholeSeconds > MAX_INT64 || bootTime > WrapInt64(MAX_INT64 - WrapInt64(wholeSeconds)) then None
    else
      var remainder := startTicks % clockTicks;
      Some(Instant(WrapInt64(bootTime + WrapInt64(wholeSeconds)), Quotient(WrapUint64(remainder * SECOND), clockTicks)))
  }

  lemma ScaledBelow(r: nat, c: nat)
    requires r < c <= SECOND
    ensures r * SECOND / c < SECOND
    ensures r * SECOND < 0x1_0000_0000_0000_0000
  {
    var q := r * SECOND / c;
    assert q * c <= r * SECOND < c * SECOND;
    if q >= SECOND {
      ProductsGrow(SECOND, q, c);
    }
  }

  /** Splitting off the whole seconds first does not change the floor. */
  lemma SecondsSplit(startTicks: nat, clockTicks: nat)
    requires clockTicks > 0
    ensures startTicks / clockTicks <= startTicks
    ensures startTicks / clockTicks * SECOND + startTicks % clockTicks * SECOND / clockTicks
         == startTicks * SECOND / clockTicks
  {
    var q, r := startTicks / clockTicks, startTicks % clockTicks;
    ProductsGrow(1, clockTicks, q);
    assert startTicks * SECOND == (q * SECOND) * clockTicks + r * SECOND;
    DivideSum(q * SECOND, r * SECOND, clockTicks);
  }

  /**
   * No intermediate value wraps: the creation time is the boot time plus the floor
   * of the start ticks in nanoseconds. It is refused exactly when the whole seconds,
   * or their sum with the boot time, exceed the largest int64.
   */
  lemma CreationTimeIsExact(bootTime: Int64, startTicks: Uint64, clockTicks: Uint64)
    requires ValidTicks(clockTicks)
    ensures var t := CreationTime(bootTime, startTicks, clockTicks);
            && (t.Some? <==> startTicks / clockTicks <= MAX_INT64 && bootTime + startTicks / clockTicks <= MAX_INT64)
            && (t.Some? ==> t.value.nanoseconds < SECOND)
            && (t.Some? ==> t.value.Total() == bootTime * SECOND + startTicks * SECOND / clockTicks)
  {
    hide WrapInt64, WrapUint64;
    SecondsSplit(startTicks, clockTicks);
    var q, ns := startTicks / clockTicks, startTicks % clockTicks * SECOND;
    ScaledBelow(startTicks % clockTicks, clockTicks);
    ProductFits(ns);
    assert (bootTime + q) * SECOND + ns / clockTicks == bootTime * SECOND + startTicks * SECOND / clockTicks;
    if startTicks / clockTicks <= MAX_INT64 {
      WrapsNot(startTicks / clockTicks, bootTime);
    }
  }

  lemma ProductFits(n: nat)
    requires n < 0x1_0000_0000_0000_0000
    ensures WrapUint64(n) == n
  {
  }

  lemma WrapsNot(wholeSeconds: nat, bootTime: Int64)
    requires wholeSeconds <= MAX_INT64
    ensures WrapInt64(wholeSeconds) == wholeSeconds
    ensures WrapInt64(MAX_INT64 - wholeSeconds) == MAX_INT64 - wholeSeconds
    ensures bootTime + wholeSeconds <= MAX_INT64 ==> WrapInt64(bootTime + wholeSeconds) == bootTime + wholeSeconds
  {
  }

  /** A later start gives a strictly later creation time. */
  lemma CreationTimeIncreases(bootTime: Int64, a: Uint64, b: Uint64, clockTicks: Uint64)
    requires ValidTicks(clockTicks) && a < b
    requires CreationTime(bootTime, b, clockTicks).Some?
    ensures CreationTime(bootTime, a, clockTicks).Some?
    ensures CreationTime(bootTime, a, clockTicks).value.Total() < CreationTime(bootTime, b, clockTicks).value.Total()
  {
    CreationTimeIsExact(bootTime, a, clockTicks);
    CreationTimeIsExact(bootTime, b, clockTicks);
    QuotientsGrow(a, b, clockTicks);
    ScaledQuotientsGrow(a, b, clockTicks);
  }

  lemma QuotientsGrow(a: nat, b: nat, c: nat)
    requires c > 0 && a <= b
    ensures a / c <= b / c
  {
    var p, q := a / c, b / c;
    assert a == p * c + a % c && b == q * c + b % c;
    if p > q {
      ProductsGrow(q + 1, p, c);
    }
  }

  lemma ScaledQuotientsGrow(a: nat, b: nat, c: nat)
    requires 0 < c <= SECOND && a < b
    ensures a * SECOND / c < b * SECOND / c
  {
    assert b * SECOND >= a * SECOND + SECOND;
    DivideSum(1, a * SECOND, c);
    QuotientsGrow(1 * c + a * SECOND, b * SECOND, c);
  }
}
