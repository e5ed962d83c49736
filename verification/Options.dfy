/** Validation of the public zstd options, and what `zstd_encode` makes of the automatic ones. */
module Options {
  import opened Basics
  import opened Windows

  datatype ZstdOptions = ZstdOptions(
    level: int, windowLog: int, ldm: int, contentSize: int, checksum: int,
    ldmHashLog: int, ldmMinMatch: int, ldmBucketLog: int, ldmRateLog: int)

  predicate Within(v: int, low: int, high: int) {
    low <= v <= high
  }

  predicate AutomaticOr(v: int, low: int, high: int) {
    v == 0 || Within(v, low, high)
  }

  predicate InRange(o: ZstdOptions) {
    && Within(o.level, 1, 22)
    && AutomaticOr(o.windowLog, 10, ZSTD_WINDOW_LOG_MAX)
    && Within(o.ldm, 0, 2) && Within(o.contentSize, 0, 1) && Within(o.checksum, 0, 1)
    && AutomaticOr(o.ldmHashLog, 6, 23)
    && AutomaticOr(o.ldmMinMatch, 4, 4096)
    && AutomaticOr(o.ldmBucketLog, 1, 8)
    && AutomaticOr(o.ldmRateLog, 1, 24)
  }

  /** `zstd_options` */
  predicate Accepts(o: ZstdOptions) {
    && InRange(o)
    && (o.ldmHashLog != 0 ==> o.ldmBucketLog <= o.ldmHashLog)
    && (o.ldm == 1 || (o.ldmHashLog == 0 && o.ldmMinMatch == 0 && o.ldmBucketLog == 0 && o.ldmRateLog == 0))
  }

  /** Tuning long-distance matching takes turning it on, and a bucket is never larger than its table. */
  lemma AcceptsIsExact(o: ZstdOptions)
    ensures Accepts(o) <==>
            && 1 <= o.level <= 22 && 0 <= o.ldm <= 2 && o.contentSize in {0, 1} && o.checksum in {0, 1}
            && o.windowLog in {0, 10, 11, 12, 13, 14, 15, 16, 17, 18, 19, 20, 21, 22, 23, 24, 25, 26, 27, 28, 29, 30}
            && (o.ldm != 1 ==> o.ldmHashLog == o.ldmMinMatch == o.ldmBucketLog == o.ldmRateLog == 0)
            && (o.ldmHashLog == 0 || (6 <= o.ldmHashLog <= 23 && o.ldmBucketLog <= o.ldmHashLog))
            && (o.ldmMinMatch == 0 || 4 <= o.ldmMinMatch <= 4096)
            && 0 <= o.ldmBucketLog <= 8 && 0 <= o.ldmRateLog <= 24
  {
  }

  /** What ZSTD_getCParams and ZSTD_adjustCParams answer; nothing is assumed of it, nor of the `rest`. */
  datatype CParams = CParams(windowLog: nat, chainLog: nat, strategy: nat, rest: seq<nat>)

  /** ZSTD_adjustCParams, for a source and a dictionary size. */
  type Adjust = (CParams, nat, nat) -> CParams

  const BTLAZY2: nat := 6

  /** What the encoder is configured with; 0 leaves a value to zstd. */
  datatype Params = Params(options: ZstdOptions, window: int, ldm: int, hashLog: int)

  method BitLength(n: nat) returns (log: nat)
    ensures n < Pow2(log) && (log > 0 ==> Pow2(log - 1) <= n)
  {
    log := 0;
    var m := n;
    while m != 0
      invariant Pow2(log) * m <= n < Pow2(log) * (m + 1)
      invariant log > 0 ==> Pow2(log - 1) <= n
      decreases m
    {
      HalvingStep(Pow2(log), m, n);
      log, m := log + 1, m / 2;
    }
  }

  lemma HalvingStep(p: nat, m: nat, n: nat)
    requires m > 0 && p * m <= n < p * (m + 1)
    ensures p <= n && (2 * p) * (m / 2) <= n < (2 * p) * (m / 2 + 1)
  {
    var h := m / 2;
    assert m == 2 * h || m == 2 * h + 1;
    assert p * m >= p * 1 by { MulMonotone(p, 1, m); }
    assert (2 * p) * h == p * (2 * h);
    assert (2 * p) * (h + 1) == p * (2 * h + 2);
    MulMonotone(p, 2 * h, m);
    MulMonotone(p, m + 1, 2 * h + 2);
  }

  lemma MulMonotone(p: nat, a: nat, b: nat)
    requires a <= b
    ensures p * a <= p * b
  {
    assert p * b == p * a + p * (b - a);
  }

  function Clamp(v: int, low: int, high: int): int
    requires low <= high
  {
    if v < low then low else if v > high then high else v
  }

  function MaxInt(a: int, b: int): int { if a >= b then a else b }

  /** The chain log that a window has to pass for long-distance matching, in 32-bit unsigned arithmetic. */
  function ChainLimit(p: CParams): nat {
    (p.chainLog - (if p.strategy >= BTLAZY2 then 1 else 0)) % 0x1_0000_0000
  }

  /**
   The parameters that the options ask for: `automatic` is what zstd answers for the level and the
   sizes, `adjust` how it fits parameters to sizes.
   */
  ghost predicate Resolved(o: ZstdOptions, bn: nat, tn: nat, automatic: CParams, adjust: Adjust, p: Params) {
    && p.options == o
    && (o.windowLog != 0 || bn == 0 ==> p.window == o.windowLog)
    && (o.ldm != 0 || bn == 0 ==> p.ldm == o.ldm)
    && (o.windowLog != 0 && bn != 0 && o.ldm == 0 ==> p.ldm == 1)
    && p.ldm in {0, 1, 2}
    // behind an automatic window, automatic long-distance matching turns on when the target outgrows the chains
    && (o.windowLog == 0 && bn != 0 && o.ldm == 0 ==> (p.ldm == 1 <==> Pow2(ChainLimit(automatic)) <= tn) && p.ldm != 2)
    // an automatic window behind a nonempty base is the least from 10 up that exceeds the target
    && (o.windowLog == 0 && bn != 0 ==>
          && 10 <= p.window < ZSTD_WINDOW_LOG_MAX
          && tn < Pow2(p.window)
          && (forall w :: 10 <= w < p.window ==> Pow2(w) <= tn))
    && AutomaticOr(p.window, 10, ZSTD_WINDOW_LOG_MAX)
    // the hash log is left to zstd only if bucket and rate are too, and is never below the bucket log
    && (o.ldmHashLog != 0 ==> p.hashLog == o.ldmHashLog)
    && (p.hashLog == 0 <==> o.ldmHashLog == 0 && o.ldmBucketLog == 0 && o.ldmRateLog == 0)
    && (p.hashLog != 0 ==> 6 <= p.hashLog <= 30 && o.ldmBucketLog <= p.hashLog)
    // an automatic one is the rate below the adjusted window, as far as these bounds let it
    && (o.ldmHashLog == 0 && p.hashLog != 0 ==>
          var q := adjust(automatic.(windowLog := if p.window > 0 then p.window else 27), if tn == 0 then 1 else tn, bn);
          var wanted: int := q.windowLog - (if o.ldmRateLog != 0 then o.ldmRateLog else 7 - q.strategy / 3);
          && (p.hashLog < wanted ==> p.hashLog == 30)
          && (p.hashLog > wanted ==> p.hashLog == 6 || p.hashLog == o.ldmBucketLog))
  }

  /** The options, the sizes and the answers of zstd leave no choice. */
  lemma ResolvedIsUnique(o: ZstdOptions, bn: nat, tn: nat, automatic: CParams, adjust: Adjust, p: Params, q: Params)
    requires Resolved(o, bn, tn, automatic, adjust, p) && Resolved(o, bn, tn, automatic, adjust, q)
    ensures p == q
  {
    if o.windowLog == 0 && bn != 0 {
      LeastIsUnique(p.window, q.window, tn);
    }
  }

  lemma LeastIsUnique(a: nat, b: nat, tn: nat)
    requires 10 <= a && 10 <= b && tn < Pow2(a) && tn < Pow2(b)
    requires forall w :: 10 <= w < a ==> Pow2(w) <= tn
    requires forall w :: 10 <= w < b ==> Pow2(w) <= tn
    ensures a == b
  {
    assert a < b ==> Pow2(a) <= tn;
    assert b < a ==> Pow2(b) <= tn;
  }

  /**
   The parameter block of `zstd_encode`; `automatic` is ZSTD_getCParams for the level and the sizes,
   `adjust` is ZSTD_adjustCParams.
   */
  method Resolve(o: ZstdOptions, bn: nat, tn: nat, automatic: CParams, adjust: Adjust) returns (p: Params)
    requires Accepts(o) && (bn != 0 ==> tn <= RAW_MAX)
    ensures Resolved(o, bn, tn, automatic, adjust, p)
  {
    var window, ldm := o.windowLog, o.ldm;
    if bn != 0 && window == 0 {
      var log := BitLength(tn);
      BitLengthIsSmall(log, tn);
      window := Clamp(log, 10, 30);
      WindowFits(log, tn);
      LogExceeds(log, tn, ChainLimit(automatic));
      if ldm == 0 && log > ChainLimit(automatic) {
        ldm := 1;
      }
    } else if bn != 0 && ldm == 0 {
      ldm := 1;
    }
    var hashLog := o.ldmHashLog;
    if hashLog == 0 && (o.ldmBucketLog != 0 || o.ldmRateLog != 0) {
      var q := adjust(automatic.(windowLog := if window != 0 then window else 27), Max(tn, 1), bn);
      var rate: int := if o.ldmRateLog != 0 then o.ldmRateLog else 7 - q.strategy / 3;
      hashLog := MaxInt(o.ldmBucketLog, Clamp(q.windowLog - rate, 6, 30));
    }
    p := Params(o, window, ldm, hashLog);
  }

  lemma BitLengthIsSmall(log: nat, n: nat)
    requires n <= RAW_MAX && (log > 0 ==> Pow2(log - 1) <= n)
    ensures log <= 29
  {
    BigPowers();
    assert Pow2(28) == RAW_MAX && Pow2(29) == 2 * RAW_MAX by {
      assert Pow2(28) == 32 * Pow2(23);
    }
    if log > 29 {
      Pow2Monotone(29, log - 1);
    }
  }

  /** A bit length exceeds `c` exactly when the number reaches the power. */
  lemma LogExceeds(log: nat, n: nat, c: nat)
    requires n < Pow2(log) && (log > 0 ==> Pow2(log - 1) <= n)
    ensures log > c <==> Pow2(c) <= n
  {
    if log > c {
      Pow2Monotone(c, log - 1);
    } else {
      Pow2Monotone(log, c);
    }
  }

  lemma WindowFits(log: nat, n: nat)
    requires n < Pow2(log) && (log > 0 ==> Pow2(log - 1) <= n) && log <= 29
    ensures var w := Clamp(log, 10, 30);
            n < Pow2(w) && forall v :: 10 <= v < w ==> Pow2(v) <= n
  {
    var w := Clamp(log, 10, 30);
    Pow2Monotone(log, w);
    forall v | 10 <= v < w ensures Pow2(v) <= n {
      Pow2Monotone(v, log - 1);
    }
  }
}
