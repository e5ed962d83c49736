/** Which decoder windows `frame_decompress` allows. */
module Windows {
  import opened Basics

  /** The least exponent from 10 up whose power reaches `max`, stopping at the largest window. */
  ghost predicate IsSearched(w: nat, max: nat) {
    && 10 <= w <= ZSTD_WINDOW_LOG_MAX
    && (forall k :: 10 <= k < w ==> Pow2(k) < max)
    && (w < ZSTD_WINDOW_LOG_MAX ==> Pow2(w) >= max)
  }

  /** The exponent the search finds. */
  ghost function WindowLog(max: nat): (w: nat)
    ensures IsSearched(w, max)
  {
    SearchedExists(10, max);
    var w :| IsSearched(w, max);
    w
  }

  lemma {:induction false} SearchedExists(k: nat, max: nat)
    requires 10 <= k <= ZSTD_WINDOW_LOG_MAX && forall i :: 10 <= i < k ==> Pow2(i) < max
    ensures exists w :: IsSearched(w, max)
    decreases ZSTD_WINDOW_LOG_MAX - k
  {
    if k < ZSTD_WINDOW_LOG_MAX && Pow2(k) < max {
      SearchedExists(k + 1, max);
    } else {
      assert IsSearched(k, max);
    }
  }

  lemma SearchedUnique(a: nat, b: nat, max: nat)
    requires IsSearched(a, max) && IsSearched(b, max)
    ensures a == b
  {
    WindowIsMonotone(a, max, b, max);
    WindowIsMonotone(b, max, a, max);
  }

  method SearchWindow(max: nat) returns (w: nat)
    ensures IsSearched(w, max)
    ensures w == WindowLog(max)
  {
    w := 10;
    while w < ZSTD_WINDOW_LOG_MAX && Pow2(w) < max
      invariant 10 <= w <= ZSTD_WINDOW_LOG_MAX
      invariant forall k :: 10 <= k < w ==> Pow2(k) < max
    {
      w := w + 1;
    }
    SearchedUnique(w, WindowLog(max), max);
  }

  /** `n` rounded up to a power of two. */
  function RoundUp(n: nat): nat {
    RoundUpFrom(0, n)
  }

  function RoundUpFrom(k: nat, n: nat): (r: nat)
    ensures r >= n
    decreases n - Pow2(k)
  {
    if Pow2(k) >= n then Pow2(k) else RoundUpFrom(k + 1, n)
  }

  lemma {:induction false} Pow2Monotone(a: nat, b: nat)
    requires a <= b
    ensures Pow2(a) <= Pow2(b)
    decreases b - a
  {
    if a < b {
      Pow2Monotone(a + 1, b);
    }
  }

  /** Rounding up finds any exponent that is the first to reach `n`. */
  lemma {:induction false} RoundUpIs(k: nat, e: nat, n: nat)
    requires k <= e && Pow2(e) >= n
    requires forall i :: k <= i < e ==> Pow2(i) < n
    ensures RoundUpFrom(k, n) == Pow2(e)
    decreases e - k
  {
    if k < e {
      RoundUpIs(k + 1, e, n);
    }
  }

  lemma BigPowers()
    ensures Pow2(10) == 1024
    ensures Pow2(23) == 8 * 1024 * 1024
    ensures Pow2(30) == FRAME_MAX == 0x4000_0000
  {
    assert Pow2(5) == 32;
    assert Pow2(10) == 1024;
    assert Pow2(15) == 32768;
    assert Pow2(20) == 1048576;
    assert Pow2(23) == 8388608;
    assert Pow2(25) == 33554432;
  }

  /**
   For every permitted bound the configured window is the least exponent in 23..30 that reaches the
   bound, and it admits exactly the windows up to 8 MiB or the bound rounded up to a power of two.
   */
  lemma WindowIsExact(w: nat, max: nat)
    requires IsSearched(w, max) && max <= FRAME_MAX
    ensures var log := Max(w, 23);
            && 23 <= log <= ZSTD_WINDOW_LOG_MAX && Pow2(log) >= max
            && (forall k :: 23 <= k < log ==> Pow2(k) < max)
            && Pow2(log) == Max(8 * 1024 * 1024, RoundUp(max))
  {
    var log := Max(w, 23);
    BigPowers();
    Pow2Monotone(w, log);
    if max <= 1024 {
      var e := LeastPower(0, max, 10);
      RoundUpIs(0, e, max);
      Pow2Monotone(e, 10);
    } else {
      forall i | 0 <= i < w ensures Pow2(i) < max {
        if i < 10 { Pow2Monotone(i, 10); }
      }
      RoundUpIs(0, w, max);
    }
  }

  lemma RoundUpMonotone(a: nat, b: nat)
    requires a <= b
    ensures RoundUp(a) <= RoundUp(b)
  {
    RoundUpMonotoneFrom(0, a, b);
  }

  lemma {:induction false} RoundUpMonotoneFrom(k: nat, a: nat, b: nat)
    requires a <= b
    ensures RoundUpFrom(k, a) <= RoundUpFrom(k, b)
    decreases b - Pow2(k)
  {
    if Pow2(k) >= a {
      RoundUpGrows(k, b);
    } else {
      RoundUpMonotoneFrom(k + 1, a, b);
    }
  }

  lemma {:induction false} RoundUpGrows(k: nat, n: nat)
    ensures RoundUpFrom(k, n) >= Pow2(k)
    decreases n - Pow2(k)
  {
    if Pow2(k) < n {
      RoundUpGrows(k + 1, n);
    }
  }

  lemma {:induction false} LeastPower(k: nat, n: nat, top: nat) returns (e: nat)
    requires k <= top && Pow2(top) >= n
    ensures k <= e <= top && Pow2(e) >= n && forall i :: k <= i < e ==> Pow2(i) < n
    decreases top - k
  {
    if Pow2(k) >= n {
      e := k;
    } else {
      e := LeastPower(k + 1, n, top);
    }
  }

  /** A larger bound never narrows the window. */
  lemma WindowIsMonotone(w: nat, max: nat, w': nat, max': nat)
    requires IsSearched(w, max) && IsSearched(w', max') && max <= max'
    ensures w <= w'
  {
    assert w' < w ==> Pow2(w') < max;
  }
}
