/**
 What `frame_decompress` does with a decoder that may leave the end of a frame to a call of its own.

 Its progress check takes a call that neither reads nor writes for a stuck one, also when the call
 completed a frame and more input follows.  Only streams of a single frame are safe from that.
 */
module DeferredEnds {
  import opened Basics
  import opened Script
  import opened Codec
  import opened FrameDecoding

  lemma OneFrameIsFrames(script: Script, src: seq<byte>, content: seq<byte>)
    requires OneFrame(script, src, content)
    ensures Frames(script, src, content)
  {
  }

  /** In a stream of one frame the first frame boundary is the end. */
  lemma FirstBoundaryIsEnd(script: Script, src: seq<byte>, content: seq<byte>, pos: nat, out: seq<byte>)
    requires OneFrame(script, src, content)
    requires Along(script, src, ORIGIN, pos, out, 1)
    ensures pos == |src| && out == content
  {
    var end := Machine([], 0, [], content, 1);
    var t := At(ORIGIN, src[pos..], out, 1);
    ReachOrder(script, Start(src), end, t);
    if Reach(script, end, t) {
      ReachBoundary(script, end, t);
    } else {
      ReachBoundary(script, t, end);
    }
  }

  /** A turn on a stream of one frame returns its content or stays inside the frame. */
  lemma TurnOnOneFrame<S(!new)>(
      d: Decoder<S>, abs: S -> Point, script: Script, s: S, src: seq<byte>, pos: nat,
      out: seq<byte>, room: nat, max: nat, content: seq<byte>)
    requires Follows(d, abs, script) && Progresses(d, abs, script) && Opens(script)
    requires Along(script, src, abs(s), pos, out, 0) && (abs(s) == ORIGIN ==> pos < |src|)
    requires |out| <= max && room > 0
    requires OneFrame(script, src, content) && |content| <= max
    ensures var r := d.step(s, src[pos..], room);
            match TurnOf(r, src, pos, out, max)
            case Stop(result) => result == Ok(content)
            case Go(s', pos', out') => r.code != Hint(0) && (abs(s') == ORIGIN ==> pos' < |src|)
  {
    var r := d.step(s, src[pos..], room);
    OneFrameIsFrames(script, src, content);
    FramesHaveNoFault(script, src, content, max);
    Advance(d, abs, script, s, src, pos, room, out, 0);
    var next := pos + r.consumed;
    assert r.code.Hint?;
    var t := At(abs(r.state), src[next..], out + r.emitted, Ended(r.code));
    assert |t.out| <= max;
    if r.code == Hint(0) {
      FirstBoundaryIsEnd(script, src, content, next, out + r.emitted);
    } else if r.consumed == 0 && r.emitted == [] {
      assert false;
    } else if abs(r.state) == ORIGIN {
      CallAdvances(d, abs, script, s, src[pos..], [], room, out, 0);
      ReachBoundary(script, At(abs(s), src[pos..] + [], out, 0),
                    At(ORIGIN, (src[pos..] + [])[r.consumed..], out + r.emitted, 0));
      assert false;
    }
  }

  lemma {:induction false} LoopOnOneFrame<S(!new)>(
      d: Decoder<S>, abs: S -> Point, script: Script, s: S, src: seq<byte>, pos: nat,
      out: seq<byte>, capacity: nat, max: nat, content: seq<byte>)
    requires Follows(d, abs, script) && Progresses(d, abs, script) && Opens(script)
    requires Along(script, src, abs(s), pos, out, 0) && (abs(s) == ORIGIN ==> pos < |src|)
    requires |out| <= max && |out| <= capacity
    requires OneFrame(script, src, content) && |content| <= max
    ensures Loop(d, s, src, pos, out, capacity, max).result == Ok(content)
    decreases |src| - pos + max - |out|
  {
    var (roomy, room) := Offer(|out|, capacity, max);
    var r := d.step(s, src[pos..], room);
    Advance(d, abs, script, s, src, pos, room, out, 0);
    TurnOnOneFrame(d, abs, script, s, src, pos, out, room, max, content);
    match TurnOf(r, src, pos, out, max)
    case Stop(_) =>
    case Go(s', pos', out') => LoopOnOneFrame(d, abs, script, s', src, pos', out', roomy, max, content);
  }

  /** With a decoder that gives each frame end a call of its own, a second frame is never reached. */
  lemma {:induction false} LazyStopsAtFirstEnd(script: Script, p: Point, src: seq<byte>, pos: nat, out: seq<byte>,
                                               capacity: nat, max: nat)
    requires Bounded(LazyDecoder(script))
    requires Along(script, src, p, pos, out, 0) && |out| <= max && |out| <= capacity
    ensures var r := Loop(LazyDecoder(script), p, src, pos, out, capacity, max).result;
            r.Ok? ==> |r.value| <= max && OneFrame(script, src, r.value)
    decreases |src| - pos + max - |out|
  {
    var d, abs := LazyDecoder(script), (p: Point) => p;
    var (roomy, room) := Offer(|out|, capacity, max);
    var r := d.step(p, src[pos..], room);
    LazyMeetsContract(script);
    Advance(d, abs, script, p, src, pos, room, out, 0);
    match TurnOf(r, src, pos, out, max)
    case Stop(result) =>
      if result.Ok? {
        assert result.value == out + r.emitted;
        assert At(ORIGIN, src[pos + r.consumed..], out + r.emitted, 1) == Machine([], 0, [], result.value, 1);
      }
    case Go(s', pos', out') => LazyStopsAtFirstEnd(script, s', src, pos', out', roomy, max);
  }

  /**
   Progress alone is not enough for the frame specification: the streams that every progressing
   decoder gets through `frame_decompress` are exactly those of a single frame within the bound.
   */
  lemma ProgressAloneAcceptsOneFrame<S(!new)>(d: Decoder<S>, abs: S -> Point, script: Script,
                                              src: seq<byte>, max: nat, claimed: nat)
    requires Follows(d, abs, script) && Progresses(d, abs, script) && Opens(script)
    requires |src| <= FRAME_MAX && max <= FRAME_MAX
    ensures forall content :: OneFrame(script, src, content) && |content| <= max ==>
              Decode(d, src, max, claimed).result == Ok(content)
    ensures Bounded(LazyDecoder(script))
    ensures Decode(LazyDecoder(script), src, max, claimed).result.Ok? <==>
            exists content :: OneFrame(script, src, content) && |content| <= max
  {
    LazyMeetsContract(script);
    ReachSelf(script, Start(src));
    assert src[0..] == src;
    assert At(ORIGIN, src, [], 0) == Start(src);
    var capacity := Reserve(claimed, max);
    if src == [] {
      forall content | OneFrame(script, src, content) ensures false {
        ReachStuck(script, Start(src), Machine([], 0, [], content, 1));
      }
    } else {
      LazyStopsAtFirstEnd(script, ORIGIN, src, 0, [], capacity, max);
      forall content | OneFrame(script, src, content) && |content| <= max
        ensures Decode(d, src, max, claimed).result == Ok(content)
        ensures Decode(LazyDecoder(script), src, max, claimed).result == Ok(content)
      {
        LoopOnOneFrame(d, abs, script, d.init, src, 0, [], capacity, max, content);
        LoopOnOneFrame(LazyDecoder(script), (p: Point) => p, script, ORIGIN, src, 0, [], capacity, max, content);
      }
    }
  }

  /** Each frame is one byte, whatever it is, and holds nothing. */
  function OneByteFrames(): Script {
    (read: seq<byte>, emitted: nat) => if read == [] then Read else End
  }

  lemma TwoFrames()
    ensures Frames(OneByteFrames(), [1, 1], [])
  {
    var script := OneByteFrames();
    var m0, m1 := Start([1, 1]), Machine([1], 0, [1], [], 0);
    var m2, m3 := Machine([], 0, [1], [], 1), Machine([1], 0, [], [], 1);
    assert Step(script, m0) == m1 && Step(script, m1) == m2 && Step(script, m2) == m3;
    assert Step(script, m3) == Machine([], 0, [], [], 2);
    assert Run(script, m2, 2) == Machine([], 0, [], [], 2);
    assert Run(script, m0, 4) == Machine([], 0, [], [], 2);
  }

  /**
   Two frames are enough to tell such decoders apart: a stream of frames that one gets through and
   that is malformed to the other.
   */
  lemma DeferredEndIsRefused() returns (script: Script, src: seq<byte>)
    ensures Opens(script) && src == [1, 1] && Frames(script, src, [])
    ensures Follows(LazyDecoder(script), (p: Point) => p, script)
    ensures Progresses(LazyDecoder(script), (p: Point) => p, script)
    ensures Bounded(GreedyDecoder(script))
    ensures Decode(GreedyDecoder(script), src, 0, 0).result == Ok([])
    ensures Decode(LazyDecoder(script), src, 0, 0).result == Err(Invalid)
  {
    script, src := OneByteFrames(), [1, 1];
    GreedyMeetsContract(script);
    LazyMeetsContract(script);
    TwoFrames();
    DecodeIsExact(GreedyDecoder(script), (p: Point) => p, script, src, 0, 0);
    LazyRefusesTwoFrames();
  }

  lemma LazyRefusesTwoFrames()
    requires Bounded(LazyDecoder(OneByteFrames()))
    ensures Decode(LazyDecoder(OneByteFrames()), [1, 1], 0, 0).result == Err(Invalid)
  {
    var d, src: seq<byte>, inside := LazyDecoder(OneByteFrames()), [1, 1], Point([1], 0);
    assert ORIGIN.read + [src[0..][0]] == [1];
    assert Lazy(OneByteFrames(), ORIGIN, src[0..], 1) == Reply(inside, 1, [], Hint(1));
    assert Lazy(OneByteFrames(), inside, src[1..], 1) == Reply(ORIGIN, 0, [], Hint(0));
    assert Loop(d, inside, src, 1, [], 0, 0).result == Err(Invalid);
  }
}
