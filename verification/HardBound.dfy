/** How hard the output bound of `frame_decompress` is, and for which decoders it is reported as such. */
module HardBound {
  import opened Basics
  import opened Script
  import opened Codec
  import opened FrameDecoding

  /** No call is offered room past the bound, except for the probe; and every call is offered some. */
  lemma OfferStaysInside(size: nat, capacity: nat, max: nat)
    requires size <= capacity && size <= max && capacity <= max + max / 2
    ensures var (roomy, room) := Offer(size, capacity, max);
            && capacity <= roomy <= max + max / 2
            && room > 0
            && (size < max ==> size + room <= max && size + room <= roomy)
            && (size == max ==> room == 1 && roomy == capacity)
  {
  }

  /** The bounds hold for every decoder that stays inside its buffers, however the run ends. */
  lemma {:induction false} LoopIsBounded<S(!new)>(d: Decoder<S>, s: S, src: seq<byte>, pos: nat,
                                                 out: seq<byte>, capacity: nat, max: nat)
    requires Bounded(d) && pos <= |src| && |out| <= max && |out| <= capacity <= max + max / 2
    ensures var o := Loop(d, s, src, pos, out, capacity, max);
            && o.capacity <= max + max / 2
            && (o.result.Ok? ==> out <= o.result.value && |o.result.value| <= max && |o.result.value| <= o.capacity)
    decreases |src| - pos + max - |out|
  {
    var (roomy, room) := Offer(|out|, capacity, max);
    OfferStaysInside(|out|, capacity, max);
    var r := d.step(s, src[pos..], room);
    match TurnOf(r, src, pos, out, max)
    case Stop(_) =>
    case Go(s', pos', out') => LoopIsBounded(d, s', src, pos', out', roomy, max);
  }

  // ----- the status of an overlong stream

  /**
   The first byte beyond the bound is followed, in its own frame and before another byte is due,
   by a fault.
   */
  ghost predicate Masked(script: Script, src: seq<byte>, max: nat) {
    exists a, t :: MaskedBy(script, src, max, a, t)
  }

  ghost predicate MaskedBy(script: Script, src: seq<byte>, max: nat, a: Machine, t: Machine) {
    && Reach(script, Start(src), a) && |a.out| == max && ActOf(script, a).Emit?
    && Reach(script, a, t) && ActOf(script, t).Fail? && |t.out| == max + 1 && t.frames == a.frames
  }

  /** Between a state and a later one with more output there is one about to emit. */
  lemma {:induction false} NextEmit(script: Script, m: Machine, n: nat) returns (a: Machine)
    requires |Run(script, m, n).out| > |m.out|
    ensures Reach(script, m, a) && |a.out| == |m.out| && ActOf(script, a).Emit?
    ensures Reach(script, a, Run(script, m, n))
    decreases n
  {
    if ActOf(script, m).Emit? {
      a := m;
      ReachSelf(script, m);
    } else {
      ReachStep(script, m);
      a := NextEmit(script, Step(script, m), n - 1);
      ReachTrans(script, m, Step(script, m), a);
    }
  }

  /** An error in a call at or below the bound is either a fault within the bound, or masks the excess. */
  lemma ErrorOrMask<S(!new)>(d: Decoder<S>, abs: S -> Point, script: Script, s: S, src: seq<byte>, pos: nat,
                             out: seq<byte>, room: nat, max: nat, frames: nat)
    requires Follows(d, abs, script)
    requires Along(script, src, abs(s), pos, out, frames)
    requires |out| <= max && |out| + room <= (if |out| == max then max + 1 else max)
    requires Exceeds(script, src, max) && !Masked(script, src, max)
    ensures d.step(s, src[pos..], room).code.Hint?
  {
    var r := d.step(s, src[pos..], room);
    if r.code.Error? {
      var m := At(abs(s), src[pos..], out, frames);
      CallAdvances(d, abs, script, s, src[pos..], [], room, out, frames);
      assert src[pos..] + [] == src[pos..];
      var t :| Reach(script, m, t) && ActOf(script, t) == Fail(r.code.code)
               && |t.out| <= |out| + room && t.frames == frames;
      ReachTrans(script, Start(src), m, t);
      if |t.out| <= max {
        FaultWithinBound(script, src, max, t);
      } else {
        var n: nat :| Run(script, m, n) == t;
        var a := NextEmit(script, m, n);
        ReachTrans(script, Start(src), m, a);
        ReachGrows(script, m, a);
        ReachGrows(script, a, t);
        assert MaskedBy(script, src, max, a, t);
      }
    }
  }

  /** A stream that stops within the bound does not exceed it. */
  lemma FaultWithinBound(script: Script, src: seq<byte>, max: nat, t: Machine)
    requires Reach(script, Start(src), t) && !CanStep(script, t) && |t.out| <= max
    ensures !Exceeds(script, src, max)
  {
    forall u | Reach(script, Start(src), u) ensures |u.out| <= max {
      ReachOrder(script, Start(src), t, u);
      if Reach(script, t, u) {
        ReachStuck(script, t, u);
      } else {
        ReachGrows(script, u, t);
      }
    }
  }

  lemma {:induction false} LoopReportsExcess<S(!new)>(
      d: Decoder<S>, abs: S -> Point, script: Script, s: S, src: seq<byte>, pos: nat,
      out: seq<byte>, capacity: nat, max: nat, frames: nat)
    requires Follows(d, abs, script) && Progresses(d, abs, script) && Prompt(d, abs, script) && Opens(script)
    requires |out| <= max && |out| <= capacity
    requires Along(script, src, abs(s), pos, out, frames) && Ready(script, src, abs(s), pos)
    requires Exceeds(script, src, max) && !Masked(script, src, max)
    ensures Loop(d, s, src, pos, out, capacity, max).result == Err(Limit)
    decreases |src| - pos + max - |out|
  {
    var (roomy, room) := Offer(|out|, capacity, max);
    var r := d.step(s, src[pos..], room);
    ErrorOrMask(d, abs, script, s, src, pos, out, room, max, frames);
    Advance(d, abs, script, s, src, pos, room, out, frames);
    TurnIsJustified(d, abs, script, s, src, pos, out, room, max, frames);
    match TurnOf(r, src, pos, out, max)
    case Go(s', pos', out') =>
      LoopReportsExcess(d, abs, script, s', src, pos', out', roomy, max, frames + Ended(r.code));
    case Stop(result) => ExcessIsLimit(script, src, max, result);
  }

  /** An overlong stream is neither accepted nor truncated. */
  lemma ExcessIsLimit(script: Script, src: seq<byte>, max: nat, r: Result<seq<byte>>)
    requires Opens(script) && Exceeds(script, src, max) && Justified(script, src, max, r)
    ensures r == Err(Limit) || exists code :: r == Err(ZStatus(code))
  {
    if r.Ok? {
      FramesHaveNoFault(script, src, r.value, max);
    } else if Truncated(script, src, max) {
      var t :| Reach(script, Start(src), t) && ActOf(script, t) == Read && t.unread == [] && |t.out| <= max;
      FaultWithinBound(script, src, max, t);
    }
  }

  /** A greedy probe before a masked byte does not stop at that byte. */
  lemma GreedyRunsIntoMask(script: Script, src: seq<byte>, p: Point, pos: nat, out: seq<byte>, frames: nat,
                           a: Machine, t: Machine)
    requires Along(script, src, p, pos, out, frames)
    requires MaskedBy(script, src, |out|, a, t)
    ensures var r := Greedy(script, p, src[pos..], 1); r.code.Error? || r.emitted == []
  {
    var max := |out|;
    var r := Greedy(script, p, src[pos..], 1);
    if r.code.Hint? && r.emitted != [] {
      GreedyAnswers(script, p, src[pos..], 1);
      GreedyMeetsContract(script);
      var m := At(p, src[pos..], out, frames);
      CallAdvances(GreedyDecoder(script), (p: Point) => p, script, p, src[pos..], [], 1, out, frames);
      assert src[pos..] + [] == src[pos..];
      var u := At(r.state, src[pos..][r.consumed..], out + r.emitted, frames + Ended(r.code));
      ReachTrans(script, Start(src), m, u);
      ReachTrans(script, Start(src), a, t);
      // both u and t lie behind the byte beyond the bound, and t is the end of the run
      ReachOrder(script, Start(src), u, t);
      if Reach(script, t, u) {
        ReachStuck(script, t, u);
      }
      ReachGrows(script, u, t);
      if r.code == Hint(0) {
        ReachOrder(script, Start(src), a, u);
        if Reach(script, u, a) {
          ReachGrows(script, u, a);
        }
        ReachGrows(script, a, u);
        ReachOrder(script, Start(src), a, m);
        if Reach(script, a, m) {
          EmitterIsLast(script, a, m);
        }
        ReachGrows(script, m, a);
        if a.frames == u.frames {
          ReachBoundary(script, a, u);
        }
        assert false;
      } else if CanStep(script, u) {
        ReachStep(script, u);
        var next := Step(script, u);
        ReachTrans(script, Start(src), u, next);
        ReachOrder(script, Start(src), next, t);
        if Reach(script, next, t) {
          ReachGrows(script, next, t);
        } else {
          ReachStuck(script, t, next);
        }
        assert false;
      } else {
        ReachStuck(script, u, t);
        assert false;
      }
    }
  }

  /** A state about to emit comes last among those with its output. */
  lemma EmitterIsLast(script: Script, a: Machine, m: Machine)
    requires ActOf(script, a).Emit? && Reach(script, a, m) && |m.out| == |a.out|
    ensures m == a
  {
    var n: nat :| Run(script, a, n) == m;
    if n > 0 {
      RunGrows(script, Step(script, a), n - 1);
    }
  }

  lemma {:induction false} GreedyHidesExcess(script: Script, src: seq<byte>, p: Point, pos: nat, out: seq<byte>,
                                             capacity: nat, max: nat, frames: nat)
    requires Bounded(GreedyDecoder(script))
    requires |out| <= max && |out| <= capacity
    requires Along(script, src, p, pos, out, frames)
    requires Masked(script, src, max)
    ensures Loop(GreedyDecoder(script), p, src, pos, out, capacity, max).result != Err(Limit)
    decreases |src| - pos + max - |out|
  {
    var d, abs := GreedyDecoder(script), (p: Point) => p;
    var (roomy, room) := Offer(|out|, capacity, max);
    var r := d.step(p, src[pos..], room);
    GreedyMeetsContract(script);
    Advance(d, abs, script, p, src, pos, room, out, frames);
    if |out| == max {
      var a, t :| MaskedBy(script, src, max, a, t);
      GreedyRunsIntoMask(script, src, p, pos, out, frames, a, t);
    }
    match TurnOf(r, src, pos, out, max)
    case Stop(_) =>
    case Go(s', pos', out') =>
      GreedyHidesExcess(script, src, s', pos', out', roomy, max, frames + Ended(r.code));
  }

  /**
   bridge.h promises PHD_LIMIT as soon as the output would exceed the bound.  Every progressing,
   prompt decoder keeps that promise for a stream that is not masked; for a masked one a decoder
   that does all it can in each call breaks it, reporting its own error for the probe instead.
   */
  lemma ExcessIsReported<S(!new)>(d: Decoder<S>, abs: S -> Point, script: Script,
                                  src: seq<byte>, max: nat, claimed: nat)
    requires Follows(d, abs, script) && Progresses(d, abs, script) && Prompt(d, abs, script) && Opens(script)
    requires 0 < |src| <= FRAME_MAX && max <= FRAME_MAX && Exceeds(script, src, max)
    ensures !Masked(script, src, max) ==> Decode(d, src, max, claimed).result == Err(Limit)
    ensures Bounded(GreedyDecoder(script))
    ensures Decode(GreedyDecoder(script), src, max, claimed).result == Err(Limit) <==> !Masked(script, src, max)
  {
    ReachSelf(script, Start(src));
    assert At(ORIGIN, src[0..], [], 0) == Start(src);
    GreedyMeetsContract(script);
    var capacity := Reserve(claimed, max);
    if Masked(script, src, max) {
      GreedyHidesExcess(script, src, ORIGIN, 0, [], capacity, max, 0);
    } else {
      LoopReportsExcess(d, abs, script, d.init, src, 0, [], capacity, max, 0);
      LoopReportsExcess(GreedyDecoder(script), (p: Point) => p, script, ORIGIN, src, 0, [], capacity, max, 0);
    }
  }

  /**
   Such streams exist: a frame of one content byte that is malformed after it exceeds bound 0, and
   the status is the zstd error.
   */
  lemma MaskedStreamExists() returns (script: Script, src: seq<byte>)
    ensures Opens(script) && src == [40]
    ensures Exceeds(script, src, 0) && Masked(script, src, 0)
    ensures Bounded(GreedyDecoder(script))
    ensures Decode(GreedyDecoder(script), src, 0, 0).result == Err(Zstd(20))
  {
    script := (read: seq<byte>, emitted: nat) =>
      if read == [] then Read else if emitted == 0 then Emit(7) else Fail(20);
    src := [40];
    var a := Machine([40], 0, [], [], 0);
    var t := Machine([40], 1, [], [7], 0);
    assert Step(script, Start(src)) == a && Step(script, a) == t;
    ReachStep(script, Start(src));
    ReachStep(script, a);
    ReachTrans(script, Start(src), a, t);
    assert MaskedBy(script, src, 0, a, t);
    GreedyMeetsContract(script);
    assert Greedy(script, Point([40], 1), [], 0) == Reply(Point([40], 1), 0, [], Error(20));
    assert src[1..] == [] && src[0..] == src;
    assert Greedy(script, Point([40], 0), src[1..], 1).code == Error(20);
    assert Greedy(script, ORIGIN, src[0..], 1).code == Error(20);
  }
}
