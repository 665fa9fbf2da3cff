/**
 * The aggregation window of `process_sample`: running sum, minimum,
 * maximum and count of the levels received since the last snapshot, and
 * the wall-clock boundary at which the next snapshot is due.
 */
module Aggregation {
  import opened Common
  import opened Clock

  /** One emitted summary: period boundary, average, minimum, maximum (tenths of dB), weighting. */
  datatype Snapshot = Snapshot(time: int, avg: int, min: int, max: int, weight: char)

  function Sum(s: seq<int>): int
  {
    if s == [] then 0 else Sum(s[..|s| - 1]) + s[|s| - 1]
  }

  function Min(s: seq<int>): int
    requires |s| > 0
  {
    if |s| == 1 then s[0]
    else if s[|s| - 1] < Min(s[..|s| - 1]) then s[|s| - 1] else Min(s[..|s| - 1])
  }

  function Max(s: seq<int>): int
    requires |s| > 0
  {
    if |s| == 1 then s[0]
    else if s[|s| - 1] > Max(s[..|s| - 1]) then s[|s| - 1] else Max(s[..|s| - 1])
  }

  predicate AllLevels(s: seq<int>)
  {
    forall i :: 0 <= i < |s| ==> 0 <= s[i] < 0x1_0000
  }

  /**
   * The snapshot of a window holding `levels`, due at `time`: the average
   * is the 32-bit sum divided by the count, truncated.
   */
  function Summary(levels: seq<int>, time: int, weight: char): Snapshot
    requires |levels| > 0
  {
    Snapshot(time, (Sum(levels) % UINT32_MODULUS) / |levels|, Min(levels), Max(levels), weight)
  }

  /** The minimum and maximum are levels of the window and bound all of them. */
  lemma {:induction false} MinMaxBound(s: seq<int>)
    requires |s| > 0
    ensures Min(s) in s && Max(s) in s
    ensures forall i :: 0 <= i < |s| ==> Min(s) <= s[i] <= Max(s)
  {
    if |s| > 1 {
      var init := s[..|s| - 1];
      MinMaxBound(init);
      assert s == init + [s[|s| - 1]];
      forall i | 0 <= i < |s| ensures Min(s) <= s[i] <= Max(s) {
        if i < |s| - 1 {
          assert s[i] == init[i];
        }
      }
    }
  }

  /** The sum lies between count times the minimum and count times the maximum. */
  lemma {:induction false} SumBound(s: seq<int>)
    requires |s| > 0
    ensures |s| * Min(s) <= Sum(s) <= |s| * Max(s)
  {
    if |s| > 1 {
      var init := s[..|s| - 1];
      var n := |init|;
      var last := s[|s| - 1];
      SumBound(init);
      assert Sum(s) == Sum(init) + last;
      assert Min(s) <= Min(init) && Min(s) <= last;
      assert Max(s) >= Max(init) && Max(s) >= last;
      assert n * Min(s) <= n * Min(init) by { MulMono(n, Min(s), Min(init)); }
      assert n * Max(init) <= n * Max(s) by { MulMono(n, Max(init), Max(s)); }
      MulSucc(n, Min(s));
      MulSucc(n, Max(s));
    }
  }

  lemma MulSucc(n: int, m: int)
    ensures (n + 1) * m == n * m + m
  {
  }

  lemma MulMono(n: nat, a: int, b: int)
    requires a <= b
    ensures n * a <= n * b
  {
  }

  /** A sum of levels is non-negative and at most 65535 per level. */
  lemma {:induction false} SumOfLevels(s: seq<int>)
    requires AllLevels(s)
    ensures 0 <= Sum(s) <= 0xFFFF * |s|
  {
    if s != [] {
      SumOfLevels(s[..|s| - 1]);
    }
  }

  /**
   * The 32-bit sum cannot wrap within 65537 levels: 65537 * 65535 is
   * 2^32 - 1. From then on the sum may wrap.
   */
  lemma NoWrapWithinBound(s: seq<int>)
    requires AllLevels(s) && |s| <= 65537
    ensures 0 <= Sum(s) < UINT32_MODULUS
  {
    SumOfLevels(s);
  }

  /** With no wrap, `min <= avg <= max` holds of the published snapshot. */
  lemma {:induction false} SummaryOrdered(levels: seq<int>, time: int, weight: char)
    requires |levels| > 0 && AllLevels(levels) && Sum(levels) < UINT32_MODULUS
    ensures Summary(levels, time, weight).min <= Summary(levels, time, weight).avg <= Summary(levels, time, weight).max
    ensures Summary(levels, time, weight).avg == Sum(levels) / |levels|
  {
    SumOfLevels(levels);
    SumBound(levels);
    var n := |levels|;
    var t := Sum(levels);
    assert t % UINT32_MODULUS == t;
    DivBetween(t, n, Min(levels), Max(levels));
  }

  /**
   * The average is printed with `%d` although it is a `uint32_t`; it always
   * fits a signed 32-bit `int`, so the printed digits are its value.
   */
  lemma {:induction false} AverageFitsInt(levels: seq<int>, time: int, weight: char)
    requires |levels| > 0 && AllLevels(levels)
    ensures 0 <= Summary(levels, time, weight).avg < 0x8000_0000
  {
    var n := |levels|;
    var t := Sum(levels) % UINT32_MODULUS;
    if n == 1 {
      assert levels == [] + [levels[0]];
      assert Sum(levels) == levels[0];
    } else {
      HalfBound(t, n);
    }
  }

  lemma HalfBound(t: int, n: int)
    requires 0 <= t < UINT32_MODULUS && n >= 2
    ensures t / n < 0x8000_0000
  {
    var q, r := t / n, t % n;
    assert t == n * q + r && 0 <= r && q >= 0;
    MulMono(q, 2, n);
    assert 2 * q <= t;
  }

  /** Three levels in one window: 13.2, 72.4 and 50.0 dB give average 45.2 dB (1356 / 3 truncated). */
  lemma SummaryExample()
    ensures Summary([132, 724, 500], 1_577_627_100, 'A') == Snapshot(1_577_627_100, 452, 132, 724, 'A')
  {
    var s := [132, 724, 500];
    assert s[..2] == [132, 724];
    assert [132, 724][..1] == [132];
    assert Sum([132]) == 132 && Min([132]) == 132 && Max([132]) == 132;
    assert Sum([132, 724]) == 856 && Min([132, 724]) == 132 && Max([132, 724]) == 724;
    assert Sum(s) == 1356 && Min(s) == 132 && Max(s) == 724;
  }

  /**
   * Successive boundaries: once a snapshot due at `boundary` is emitted at
   * `now`, the next one is due at a later multiple of the period, provided
   * the clock does not go back between the two readings.
   */
  lemma BoundaryAdvances(boundary: int, now: int, resetNow: int)
    requires now >= boundary && resetNow >= now
    ensures NextBoundary(resetNow) > boundary
    ensures NextBoundary(resetNow) % PERIOD == 0
  {
    NextBoundaryAligned(resetNow);
  }

  /** From `n * lo <= t <= n * hi` follows `lo <= t / n <= hi`. */
  lemma DivBetween(t: int, n: int, lo: int, hi: int)
    requires n > 0 && n * lo <= t <= n * hi
    ensures lo <= t / n <= hi
  {
    var q, r := t / n, t % n;
    assert t == n * q + r && 0 <= r < n;
    if q < lo {
      MulMono(n, q + 1, lo);
      MulSucc(q, n);
      assert false;
    }
    if q > hi {
      MulMono(n, hi + 1, q);
      MulSucc(hi, n);
      assert false;
    }
  }

  /**
   * `process_sample`'s globals `dBSum`, `dBMin`, `dBMax`, `sampleCount` and
   * `next_period`. The ghost `observed` lists the levels of the current window.
   */
  class Window {
    var sum: Uint32
    var min: Uint16
    var max: Uint16
    var count: nat
    var nextPeriod: int
    ghost var observed: seq<int>

    /**
     * The window invariant: while the window is not empty the fields are the
     * sum (modulo 2^32), minimum and maximum of the observed levels. In an
     * empty window they keep the values of the last one and are not read.
     */
    ghost predicate Valid()
      reads this
    {
      && count == |observed|
      && AllLevels(observed)
      && nextPeriod % PERIOD == 0
      && (count > 0 ==>
            && min <= max
            && min == Min(observed)
            && max == Max(observed)
            && sum == Sum(observed) % UINT32_MODULUS)
    }

    /** The zero-initialised globals, and `get_next_period` as called before the loop starts. */
    constructor (now: int)
      ensures Valid()
      ensures observed == [] && nextPeriod == NextBoundary(now)
      ensures sum == 0 && min == 0 && max == 0
    {
      NextBoundaryAligned(now);
      sum, min, max, count := 0, 0, 0, 0;
      nextPeriod := NextBoundary(now);
      observed := [];
    }

    /**
     * `process_sample(dB, ...)`: adds a level, then, when the clock reading `now`
     * has reached the boundary, returns the snapshot of the window, empties it
     * and sets the boundary from the clock reading `resetNow` taken after
     * publishing.
     */
    method Observe(dB: Uint16, weight: char, now: int, resetNow: int) returns (snap: Option<Snapshot>)
      requires Valid()
      modifies this
      ensures Valid()
      ensures now >= old(nextPeriod) ==>
        && snap == Some(Summary(old(observed) + [dB], old(nextPeriod), weight))
        && observed == [] && count == 0
        && nextPeriod == NextBoundary(resetNow)
      ensures now < old(nextPeriod) ==>
        && snap == None
        && observed == old(observed) + [dB]
        && nextPeriod == old(nextPeriod)
      ensures old(count) == 0 && now < old(nextPeriod) ==> min == dB && max == dB && sum == dB
    {
      ghost var all := observed + [dB];
      AppendLevel(observed, dB);
      if count == 0 {
        sum := dB;
        max := sum;
        min := max;
      } else {
        sum := (sum + dB) % UINT32_MODULUS;
        if dB < min {
          min := dB;
        } else if dB > max {
          max := dB;
        }
        assert min == Min(all) && max == Max(all);
        SumMod(Sum(observed), dB);
      }
      count := count + 1;
      observed := all;

      if now >= nextPeriod {
        var avg := sum / count;
        snap := Some(Snapshot(nextPeriod, avg, min, max, weight));
        NextBoundaryAligned(resetNow);
        nextPeriod := NextBoundary(resetNow);
        count := 0;
        observed := [];
      } else {
        snap := None;
      }
    }
  }

  /** How sum, minimum and maximum change when a level is appended. */
  lemma AppendLevel(s: seq<int>, x: int)
    ensures Sum(s + [x]) == Sum(s) + x
    ensures s == [] ==> Min(s + [x]) == x && Max(s + [x]) == x
    ensures s != [] ==> Min(s + [x]) == (if x < Min(s) then x else Min(s))
    ensures s != [] ==> Max(s + [x]) == (if x > Max(s) then x else Max(s))
  {
    assert (s + [x])[..|s + [x]| - 1] == s;
  }

  lemma SumMod(t: int, x: int)
    ensures ((t % UINT32_MODULUS) + x) % UINT32_MODULUS == (t + x) % UINT32_MODULUS
  {
  }
}
