/**
 * Time arithmetic of the program: the millisecond difference of two
 * `struct timespec` values (`timespec_subtract`) and the formula that
 * gives the end of the current aggregation period (`get_next_period`),
 * with C's integer division and `int` narrowing written out.
 */
module Clock {

  const MS_PER_SEC: int := 1000
  const NS_PER_MS: int := 1_000_000
  const NS_PER_SEC: int := 1_000_000_000

  /** `struct timespec`: seconds and nanoseconds. */
  datatype Timespec = Timespec(sec: int, nsec: int)

  /** What `clock_gettime` returns: the nanosecond part lies in 0..999999999. */
  predicate Normalized(t: Timespec)
  {
    0 <= t.nsec < NS_PER_SEC
  }

  /** The instant as a count of nanoseconds. */
  function Nanos(t: Timespec): int
  {
    t.sec * NS_PER_SEC + t.nsec
  }

  /** C's `/` on signed integers: the quotient rounded toward zero. */
  function Quot(a: int, b: int): int
    requires b > 0
  {
    if a >= 0 then a / b else -((-a) / b)
  }

  /**
   * Nanoseconds to milliseconds with C's quotient: the floor, or one more
   * than it for a negative dividend that is not a whole number of milliseconds.
   */
  lemma QuotMillis(a: int)
    ensures Quot(a, NS_PER_MS) == a / NS_PER_MS <==> a >= 0 || a % NS_PER_MS == 0
    ensures Quot(a, NS_PER_MS) != a / NS_PER_MS ==> Quot(a, NS_PER_MS) == a / NS_PER_MS + 1
  {
  }

  /** Conversion of a wider integer to a 32-bit `int`, wrapping modulo 2^32. */
  function ToInt32(v: int): (r: int)
    ensures -0x8000_0000 <= r < 0x8000_0000
    ensures (r - v) % 0x1_0000_0000 == 0
  {
    (v + 0x8000_0000) % 0x1_0000_0000 - 0x8000_0000
  }

  /** A value already in range is kept by the narrowing. */
  lemma ToInt32InRange(v: int)
    requires -0x8000_0000 <= v < 0x8000_0000
    ensures ToInt32(v) == v
  {
  }

  /** `timespec_subtract(x, y)`: milliseconds from `y` to `x`, seconds and nanoseconds converted apart. */
  function Elapsed(x: Timespec, y: Timespec): int
  {
    var secDiff := ToInt32((x.sec - y.sec) * MS_PER_SEC);
    var nsDiff := ToInt32(Quot(x.nsec - y.nsec, NS_PER_MS));
    ToInt32(secDiff + nsDiff)
  }

  /**
   * For normalized instants less than about 23 days apart, `Elapsed` is the
   * floor of the true difference in milliseconds, or one more than it: the
   * nanosecond part is truncated toward zero on its own before it is added.
   */
  lemma {:induction false} ElapsedBounds(x: Timespec, y: Timespec)
    requires Normalized(x) && Normalized(y)
    requires -2_000_000 <= x.sec - y.sec <= 2_000_000
    ensures (Nanos(x) - Nanos(y)) / NS_PER_MS <= Elapsed(x, y) <= (Nanos(x) - Nanos(y)) / NS_PER_MS + 1
    ensures x.nsec >= y.nsec ==> Elapsed(x, y) == (Nanos(x) - Nanos(y)) / NS_PER_MS
    ensures (Nanos(x) - Nanos(y)) % NS_PER_MS == 0 ==> Elapsed(x, y) == (Nanos(x) - Nanos(y)) / NS_PER_MS
  {
    var s := x.sec - y.sec;
    var n := x.nsec - y.nsec;
    ToInt32InRange(s * MS_PER_SEC);
    QuotMillis(n);
    var q := Quot(n, NS_PER_MS);
    assert -1000 <= q <= 1000;
    ToInt32InRange(q);
    ToInt32InRange(s * MS_PER_SEC + q);
    assert Elapsed(x, y) == s * MS_PER_SEC + q;
    assert Nanos(x) - Nanos(y) == s * 1000 * NS_PER_MS + n;
    assert (s * 1000 * NS_PER_MS + n) / NS_PER_MS == s * 1000 + n / NS_PER_MS;
  }

  /**
   * The poll guard `Elapsed(now, last) >= k` is passed by every gap of at
   * least k milliseconds, and by no gap of k - 1 milliseconds or less.
   */
  lemma {:induction false} ElapsedGuard(x: Timespec, y: Timespec, k: int)
    requires Normalized(x) && Normalized(y)
    requires -2_000_000 <= x.sec - y.sec <= 2_000_000
    ensures Nanos(x) - Nanos(y) >= k * NS_PER_MS ==> Elapsed(x, y) >= k
    ensures Elapsed(x, y) >= k ==> Nanos(x) - Nanos(y) > (k - 1) * NS_PER_MS
  {
    ElapsedBounds(x, y);
    var d := Nanos(x) - Nanos(y);
    if d >= k * NS_PER_MS {
      assert d / NS_PER_MS >= (k * NS_PER_MS) / NS_PER_MS;
    }
    if Elapsed(x, y) >= k {
      assert d / NS_PER_MS >= k - 1;
      assert d / NS_PER_MS == k - 1 ==> d % NS_PER_MS != 0;
    }
  }

  /** A gap that the 500 ms guard lets through although it is shorter than 500 ms. */
  lemma GuardAdmitsShortGap()
    ensures Elapsed(Timespec(1, 499_000_000), Timespec(0, 999_999_999)) == 500
    ensures Nanos(Timespec(1, 499_000_000)) - Nanos(Timespec(0, 999_999_999)) == 499_000_001
  {
  }

  /** The aggregation period in seconds (`meter_accumulation_period`). */
  const PERIOD: int := 60

  /** `((now + P) / P) * P`: the period boundary computed by `get_next_period`. */
  function NextBoundary(now: int): int
  {
    Quot(now + PERIOD, PERIOD) * PERIOD
  }

  /**
   * The boundary is a multiple of the period strictly after `now`; from one
   * period before the epoch on it is the first such multiple, so it lies at
   * most one period ahead.
   */
  lemma {:induction false} NextBoundaryAligned(now: int)
    ensures NextBoundary(now) % PERIOD == 0
    ensures NextBoundary(now) > now
    ensures now + PERIOD >= 0 ==> NextBoundary(now) <= now + PERIOD
    ensures now + PERIOD >= 0 ==> forall k: int :: now < k * PERIOD ==> NextBoundary(now) <= k * PERIOD
  {
    var q := Quot(now + PERIOD, PERIOD);
    assert NextBoundary(now) == q * PERIOD;
    if now + PERIOD >= 0 {
      forall k: int | now < k * PERIOD
        ensures q * PERIOD <= k * PERIOD
      {
      }
    }
  }

  /** On a boundary the next boundary is a full period later: the formula is not a ceiling. */
  lemma NextBoundaryOnBoundary(now: int)
    requires now % PERIOD == 0
    ensures NextBoundary(now) == now + PERIOD
  {
  }
}
