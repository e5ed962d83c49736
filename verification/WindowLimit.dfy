/** What the window limits that decoders are configured with do to the streams that are accepted. */
module WindowLimit {
  import opened Basics
  import opened Script
  import opened Codec
  import opened Windows
  import opened FrameDecoding
  import DecoderPlugin
  import SingleFrame

  /** ZSTD_error_frameParameter_windowTooLarge */
  const WINDOW_TOO_LARGE: nat := 16

  predicate Fits(windowOf: seq<byte> -> Maybe<nat>, read: seq<byte>, limit: nat) {
    windowOf(read).Some? ==> windowOf(read).get <= limit
  }

  /** A decoder that refuses a frame as soon as its header declares a window above the limit. */
  function Limited(script: Script, windowOf: seq<byte> -> Maybe<nat>, limit: nat): Script {
    (read: seq<byte>, emitted: nat) =>
      if Fits(windowOf, read, limit) then script(read, emitted) else Fail(WINDOW_TOO_LARGE)
  }

  /** Every frame of the stream, as far as it can be read, declares a window within the limit. */
  ghost predicate AllFit(script: Script, windowOf: seq<byte> -> Maybe<nat>, src: seq<byte>, limit: nat) {
    forall t :: Reach(script, Start(src), t) ==> Fits(windowOf, t.read, limit)
  }

  /** The limited run is the beginning of the unlimited one, up to the first window that does not fit. */
  lemma {:induction false} LimitedRun(script: Script, windowOf: seq<byte> -> Maybe<nat>, limit: nat, m: Machine, n: nat)
      returns (misfit: Maybe<Machine>)
    ensures misfit == None ==> Run(Limited(script, windowOf, limit), m, n) == Run(script, m, n)
                               && Fits(windowOf, Run(script, m, n).read, limit)
    ensures misfit.Some? ==> Reach(Limited(script, windowOf, limit), m, misfit.get)
                             && Reach(script, m, misfit.get)
                             && !Fits(windowOf, misfit.get.read, limit)
    decreases n
  {
    var limited := Limited(script, windowOf, limit);
    if !Fits(windowOf, m.read, limit) {
      ReachSelf(limited, m);
      ReachSelf(script, m);
      misfit := Some(m);
    } else if n == 0 || !CanStep(script, m) {
      misfit := None;
    } else {
      var next := Step(script, m);
      misfit := LimitedRun(script, windowOf, limit, next, n - 1);
      if misfit.Some? {
        ReachStep(limited, m);
        ReachStep(script, m);
        ReachTrans(limited, m, next, misfit.get);
        ReachTrans(script, m, next, misfit.get);
      }
    }
  }

  /** A limited decoder gets to the end of `k` frames exactly where the plain one does and every window fits. */
  lemma LimitedReach(script: Script, windowOf: seq<byte> -> Maybe<nat>, limit: nat, src: seq<byte>,
                     content: seq<byte>, k: nat)
    requires Opens(script) && Fits(windowOf, [], limit)
    ensures Reach(Limited(script, windowOf, limit), Start(src), Machine([], 0, [], content, k))
            <==> Reach(script, Start(src), Machine([], 0, [], content, k)) && AllFit(script, windowOf, src, limit)
  {
    var limited := Limited(script, windowOf, limit);
    var end := Machine([], 0, [], content, k);
    if Reach(limited, Start(src), end) {
      forall t | Reach(script, Start(src), t) ensures Fits(windowOf, t.read, limit) {
        var n: nat :| Run(script, Start(src), n) == t;
        var misfit := LimitedRun(script, windowOf, limit, Start(src), n);
        if misfit.Some? {
          FramesEnd(limited, src, content, k, misfit.get);
        }
      }
      var n: nat :| Run(limited, Start(src), n) == end;
      var misfit := LimitedRun(script, windowOf, limit, Start(src), n);
      assert Reach(script, Start(src), end);
    }
    if Reach(script, Start(src), end) && AllFit(script, windowOf, src, limit) {
      var n: nat :| Run(script, Start(src), n) == end;
      var misfit := LimitedRun(script, windowOf, limit, Start(src), n);
      assert Reach(limited, Start(src), end);
    }
  }

  /** A limited decoder accepts the streams of frames, and the single frames, all of whose windows fit. */
  lemma LimitedFrames(script: Script, windowOf: seq<byte> -> Maybe<nat>, limit: nat, src: seq<byte>, content: seq<byte>)
    requires Opens(script) && Fits(windowOf, [], limit)
    ensures Frames(Limited(script, windowOf, limit), src, content)
            <==> Frames(script, src, content) && AllFit(script, windowOf, src, limit)
    ensures OneFrame(Limited(script, windowOf, limit), src, content)
            <==> OneFrame(script, src, content) && AllFit(script, windowOf, src, limit)
  {
    forall k: nat
      ensures Reach(Limited(script, windowOf, limit), Start(src), Machine([], 0, [], content, k))
              <==> Reach(script, Start(src), Machine([], 0, [], content, k)) && AllFit(script, windowOf, src, limit)
    {
      LimitedReach(script, windowOf, limit, src, content, k);
    }
  }

  /** Whatever window log a decoder of the family is configured with, it enforces just that. */
  ghost predicate Enforces<S(!new)>(configure: nat -> Decoder<S>, abs: S -> Point, script: Script,
                                    windowOf: seq<byte> -> Maybe<nat>) {
    forall log: nat ::
      && Follows(configure(log), abs, Limited(script, windowOf, Pow2(log)))
      && Progresses(configure(log), abs, Limited(script, windowOf, Pow2(log)))
      && Prompt(configure(log), abs, Limited(script, windowOf, Pow2(log)))
  }

  /**
   `frame_decompress` refuses windows beyond what the bound needs, and no others: with decoders that
   enforce whatever limit they are configured with, it accepts exactly the streams of frames within
   the bound all of whose windows are at most 8 MiB or the bound rounded up to a power of two.
   */
  lemma DecompressAdmits<S(!new)>(configure: nat -> Decoder<S>, abs: S -> Point, script: Script,
                                  windowOf: seq<byte> -> Maybe<nat>, src: seq<byte>, max: nat, claimed: nat)
    requires Opens(script) && windowOf([]) == None && Enforces(configure, abs, script, windowOf)
    requires |src| <= FRAME_MAX && max <= FRAME_MAX
    ensures Bounded(Configured(configure, max))
    ensures var limit := Max(8 * 1024 * 1024, RoundUp(max));
            Decode(Configured(configure, max), src, max, claimed).result.Ok? <==>
              exists content ::
                |content| <= max && Frames(script, src, content) && AllFit(script, windowOf, src, limit)
  {
    var limit := Max(8 * 1024 * 1024, RoundUp(max));
    WindowIsExact(WindowLog(max), max);
    var limited := Limited(script, windowOf, limit);
    DecodeIsExact(Configured(configure, max), abs, limited, src, max, claimed);
    forall content
      ensures Frames(limited, src, content) <==> Frames(script, src, content) && AllFit(script, windowOf, src, limit)
    {
      LimitedFrames(script, windowOf, limit, src, content);
    }
  }

  /**
   The diff data of a payload is read exactly if it is one frame of the recorded size with windows of
   at most 8 MiB.
   */
  lemma SessionAdmits<S(!new)>(prepare: nat -> Decoder<S>, abs: S -> Point, script: Script,
                               windowOf: seq<byte> -> Maybe<nat>, source: seq<byte>, size: nat, b: nat, e: nat,
                               lengths: seq<nat>, content: seq<byte>)
    requires Opens(script) && windowOf([]) == None && Enforces(prepare, abs, script, windowOf)
    requires b <= e <= |source| && size <= PAYLOAD_MAX && DecoderPlugin.Sum(lengths) == size
    ensures Bounded(prepare(HDIFF_WINDOW_LOG_MAX))
    ensures DecoderPlugin.Session(prepare(HDIFF_WINDOW_LOG_MAX), source, size, b, e, lengths) == Ok(content)
            <==> && |content| == size && OneFrame(script, source[b..e], content)
                 && AllFit(script, windowOf, source[b..e], 8 * 1024 * 1024)
  {
    BigPowers();
    var limited := Limited(script, windowOf, Pow2(HDIFF_WINDOW_LOG_MAX));
    DecoderPlugin.SessionReturns(prepare(HDIFF_WINDOW_LOG_MAX), abs, limited, source, size, b, e, lengths, content);
    LimitedFrames(script, windowOf, 8 * 1024 * 1024, source[b..e], content);
  }

  /** `zstd_apply` gives the content of exactly one frame with a window of at most 2^30, behind an admissible header. */
  lemma ApplyAdmits<S(!new)>(prepare: (nat, seq<byte>) -> Decoder<S>, abs: S -> Point, script: Script,
                             windowOf: seq<byte> -> Maybe<nat>, base: seq<byte>, src: seq<byte>,
                             header: SingleFrame.FrameHeader, content: seq<byte>)
    requires Opens(script) && windowOf([]) == None
    requires Enforces((log: nat) => prepare(log, base), abs, script, windowOf)
    ensures Bounded(prepare(ZSTD_WINDOW_LOG_MAX, base))
    ensures SingleFrame.Decode(prepare(ZSTD_WINDOW_LOG_MAX, base), |base|, src, |content|, header) == Ok(content)
            <==> && SingleFrame.Admissible(|base|, |src|, |content|, header)
                 && OneFrame(script, src, content) && AllFit(script, windowOf, src, 0x4000_0000)
  {
    BigPowers();
    var family := (log: nat) => prepare(log, base);
    var d, limited := family(ZSTD_WINDOW_LOG_MAX), Limited(script, windowOf, Pow2(ZSTD_WINDOW_LOG_MAX));
    assert Follows(d, abs, limited) && Progresses(d, abs, limited);
    SingleFrame.DecodeReturns(d, abs, limited, |base|, src, content, header);
    LimitedFrames(script, windowOf, 0x4000_0000, src, content);
  }
}
