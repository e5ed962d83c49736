/** Decoding a stream of frames under a hard output bound: `frame_decompress`. */
module FrameDecoding {
  import opened Basics
  import opened Script
  import opened Codec
  import opened Buffers
  import opened Windows

  /** What a run of the decode loop ends with. */
  datatype Outcome = Outcome(result: Result<seq<byte>>, capacity: nat)

  /** What the checks after a call decide: the loop halts, or goes on from a new state and position. */
  datatype Next<+S> = Halt(result: Result<()>) | More(state: S, pos: nat)

  /** One turn of the loop, with the output it has so far. */
  datatype Turn<+S> = Stop(result: Result<seq<byte>>) | Go(state: S, pos: nat, out: seq<byte>)

  /** The capacity and the room with which a turn calls the decoder; at the bound, a one-byte probe. */
  function Offer(size: nat, capacity: nat, max: nat): (nat, nat)
    requires size <= capacity && size <= max
  {
    if size == max then (capacity, 1)
    else
      var roomy := Ask(capacity, 0, size + Min(max - size, CHUNK)).0;
      (roomy, Min(roomy - size, max - size))
  }

  /** The checks after a call; `full` says that it was a probe at the bound, and `end` is the input's length. */
  function NextOf<S>(r: Reply<S>, pos: nat, end: nat, full: bool): Next<S> {
    var next := pos + r.consumed;
    if r.code.Error? then Halt(Err(ZStatus(r.code.code)))
    else if full && r.emitted != [] then Halt(Err(Limit))
    else if r.code == Hint(0) && next == end then Halt(Ok(()))
    else if next == pos && r.emitted == [] then Halt(Err(Invalid))
    else More(r.state, next)
  }

  function TurnOf<S>(r: Reply<S>, src: seq<byte>, pos: nat, out: seq<byte>, max: nat): Turn<S> {
    match NextOf(r, pos, |src|, |out| == max)
    case Halt(Err(status)) => Stop(Err(status))
    case Halt(Ok(_)) => Stop(Ok(out + r.emitted))
    case More(state, next) => Go(state, next, out + r.emitted)
  }

  /**
   The decode loop for any decoder that stays inside its buffers.  Unread input plus unfilled
   output is the measure, so the loop ends whatever the decoder answers.
   */
  ghost function Loop<S(!new)>(d: Decoder<S>, s: S, src: seq<byte>, pos: nat,
                               out: seq<byte>, capacity: nat, max: nat): Outcome
    requires Bounded(d) && pos <= |src| && |out| <= max && |out| <= capacity
    decreases |src| - pos + max - |out|
  {
    var (roomy, room) := Offer(|out|, capacity, max);
    match TurnOf(d.step(s, src[pos..], room), src, pos, out, max)
    case Stop(result) => Outcome(result, roomy)
    case Go(s', pos', out') => Loop(d, s', src, pos', out', roomy, max)
  }

  // ----- what a refusal means

  /** The stream has more content than the bound. */
  ghost predicate Exceeds(script: Script, src: seq<byte>, max: nat) {
    exists t :: Reach(script, Start(src), t) && |t.out| > max
  }

  /** The stream ends inside a frame, with no more content than the bound. */
  ghost predicate Truncated(script: Script, src: seq<byte>, max: nat) {
    exists t ::
      && Reach(script, Start(src), t)
      && ActOf(script, t) == Read && t.unread == [] && !t.AtBoundary()
      && |t.out| <= max
  }

  /** A frame of the stream is malformed, after at most `limit` content bytes. */
  ghost predicate Malformed(script: Script, src: seq<byte>, limit: nat, code: nat) {
    exists t :: Reach(script, Start(src), t) && ActOf(script, t) == Fail(code) && |t.out| <= limit
  }

  ghost predicate Justified(script: Script, src: seq<byte>, max: nat, r: Result<seq<byte>>) {
    match r
    case Ok(content) => |content| <= max && Frames(script, src, content)
    case Err(status) =>
      || (status == Limit && Exceeds(script, src, max))
      || (status == Invalid && Truncated(script, src, max))
      || (exists code :: status == ZStatus(code) && Malformed(script, src, max + 1, code))
  }

  /** One call, seen from the whole stream. */
  lemma Advance<S(!new)>(d: Decoder<S>, abs: S -> Point, script: Script, s: S, src: seq<byte>, pos: nat,
                         room: nat, out: seq<byte>, frames: nat)
    requires Follows(d, abs, script)
    requires Along(script, src, abs(s), pos, out, frames)
    ensures var r := d.step(s, src[pos..], room);
            match r.code
            case Error(code) => Malformed(script, src, |out| + room, code)
            case Hint(more) =>
              && |r.emitted| <= room
              && Along(script, src, abs(r.state), pos + r.consumed, out + r.emitted, frames + Ended(r.code))
              && (more == 0 ==> abs(r.state) == ORIGIN)
              && (more == 0 && pos + r.consumed == |src| ==> Frames(script, src, out + r.emitted))
  {
    var r := d.step(s, src[pos..], room);
    var m := At(abs(s), src[pos..], out, frames);
    CallAdvances(d, abs, script, s, src[pos..], [], room, out, frames);
    assert src[pos..] + [] == src[pos..];
    match r.code
    case Error(code) =>
      var t :| Reach(script, m, t) && ActOf(script, t) == Fail(code)
               && |t.out| <= |out| + room && t.frames == frames;
      ReachTrans(script, Start(src), m, t);
    case Hint(more) =>
      assert src[pos..][r.consumed..] == src[pos + r.consumed..];
      var t := At(abs(r.state), src[pos + r.consumed..], out + r.emitted, frames + Ended(r.code));
      ReachTrans(script, Start(src), m, t);
      if more == 0 && pos + r.consumed == |src| {
        assert t == Machine([], 0, [], out + r.emitted, frames + 1);
      }
  }

  /** Whatever a decoder of the script answers, an accepted stream is one of frames, with that content. */
  lemma {:induction false} LoopIsSound<S(!new)>(
      d: Decoder<S>, abs: S -> Point, script: Script, s: S, src: seq<byte>, pos: nat,
      out: seq<byte>, capacity: nat, max: nat, frames: nat)
    requires Follows(d, abs, script)
    requires |out| <= max && |out| <= capacity
    requires Along(script, src, abs(s), pos, out, frames)
    ensures var r := Loop(d, s, src, pos, out, capacity, max).result;
            r.Ok? ==> |r.value| <= max && Frames(script, src, r.value)
    decreases |src| - pos + max - |out|
  {
    var (roomy, room) := Offer(|out|, capacity, max);
    var r := d.step(s, src[pos..], room);
    Advance(d, abs, script, s, src, pos, room, out, frames);
    match TurnOf(r, src, pos, out, max)
    case Stop(_) =>
    case Go(s', pos', out') =>
      LoopIsSound(d, abs, script, s', src, pos', out', roomy, max, frames + Ended(r.code));
  }

  // ----- a decoder that progresses, promptly

  /** Completing a frame without touching a buffer is a micro-step by itself. */
  lemma {:induction false} PureEnd(script: Script, m: Machine, t: Machine)
    requires Reach(script, m, t)
    requires t.unread == m.unread && t.out == m.out && t.frames > m.frames
    ensures ActOf(script, m) == End
  {
    var n: nat :| Run(script, m, n) == t;
    if n > 0 && CanStep(script, m) {
      RunGrows(script, Step(script, m), n - 1);
    }
  }

  /** What every turn keeps: no frame boundary at the end of the input, no frame left to be completed. */
  ghost predicate Ready(script: Script, src: seq<byte>, p: Point, pos: nat) {
    && (p == ORIGIN ==> pos < |src|)
    && script(p.read, p.emitted) != End
  }

  /** A call that neither read nor emitted: the stream ends inside a frame, or a frame end was pending. */
  lemma NoProgress<S(!new)>(d: Decoder<S>, abs: S -> Point, script: Script, s: S, src: seq<byte>, pos: nat,
                            room: nat, out: seq<byte>, frames: nat)
    requires Follows(d, abs, script) && Progresses(d, abs, script)
    requires Along(script, src, abs(s), pos, out, frames) && room > 0
    requires abs(s) == ORIGIN ==> pos < |src|
    requires var r := d.step(s, src[pos..], room); r.code.Hint? && r.consumed == 0 && r.emitted == []
    ensures script(abs(s).read, abs(s).emitted) == End || Truncated(script, src, |out|)
  {
    var r := d.step(s, src[pos..], room);
    var m := At(abs(s), src[pos..], out, frames);
    if Moved(r) {
      CallAdvances(d, abs, script, s, src[pos..], [], room, out, frames);
      assert src[pos..] + [] == src[pos..] && src[pos..][0..] == src[pos..] && out + [] == out;
      PureEnd(script, m, At(abs(r.state), src[pos..], out, frames + 1));
    } else {
      assert !CanMove(script, abs(s), src[pos..], room);
      assert ActOf(script, m) == Read && m.unread == [];
      assert !m.AtBoundary();
    }
  }

  /** Each turn either stops with a justified result or leaves the loop ready for another. */
  lemma TurnIsJustified<S(!new)>(
      d: Decoder<S>, abs: S -> Point, script: Script, s: S, src: seq<byte>, pos: nat,
      out: seq<byte>, room: nat, max: nat, frames: nat)
    requires Follows(d, abs, script) && Progresses(d, abs, script) && Prompt(d, abs, script) && Opens(script)
    requires Along(script, src, abs(s), pos, out, frames) && Ready(script, src, abs(s), pos)
    requires |out| <= max && 0 < room && |out| + room <= (if |out| == max then max + 1 else max)
    ensures match TurnOf(d.step(s, src[pos..], room), src, pos, out, max)
            case Stop(result) => Justified(script, src, max, result)
            case Go(s', pos', out') => pos' <= |src| && Ready(script, src, abs(s'), pos')
  {
    var r := d.step(s, src[pos..], room);
    Advance(d, abs, script, s, src, pos, room, out, frames);
    match TurnOf(r, src, pos, out, max)
    case Stop(result) =>
      if r.code.Hint? && |out| == max && r.emitted != [] {
        assert |At(abs(r.state), src[pos + r.consumed..], out + r.emitted, frames + Ended(r.code)).out| > max;
      } else if r.code.Hint? && r.consumed == 0 && r.emitted == [] {
        assert out + [] == out;
        if !(r.code == Hint(0) && pos == |src|) {
          NoProgress(d, abs, script, s, src, pos, room, out, frames);
        }
      }
    case Go(s', pos', out') =>
      if abs(s') == ORIGIN && r.code != Hint(0) {
        CallAdvances(d, abs, script, s, src[pos..], [], room, out, frames);
        var m := At(abs(s), src[pos..] + [], out, frames);
        var t := At(abs(s'), (src[pos..] + [])[r.consumed..], out', frames);
        ReachBoundary(script, m, t);
        assert false;
      }
  }

  lemma {:induction false} LoopIsJustified<S(!new)>(
      d: Decoder<S>, abs: S -> Point, script: Script, s: S, src: seq<byte>, pos: nat,
      out: seq<byte>, capacity: nat, max: nat, frames: nat)
    requires Follows(d, abs, script) && Progresses(d, abs, script) && Prompt(d, abs, script) && Opens(script)
    requires |out| <= max && |out| <= capacity
    requires Along(script, src, abs(s), pos, out, frames) && Ready(script, src, abs(s), pos)
    ensures Justified(script, src, max, Loop(d, s, src, pos, out, capacity, max).result)
    decreases |src| - pos + max - |out|
  {
    var (roomy, room) := Offer(|out|, capacity, max);
    var r := d.step(s, src[pos..], room);
    Advance(d, abs, script, s, src, pos, room, out, frames);
    TurnIsJustified(d, abs, script, s, src, pos, out, room, max, frames);
    match TurnOf(r, src, pos, out, max)
    case Stop(_) =>
    case Go(s', pos', out') =>
      LoopIsJustified(d, abs, script, s', src, pos', out', roomy, max, frames + Ended(r.code));
  }

  /** A stream of frames has none of the faults, except too much content. */
  lemma FramesHaveNoFault(script: Script, src: seq<byte>, content: seq<byte>, max: nat)
    requires Opens(script) && Frames(script, src, content)
    ensures Exceeds(script, src, max) <==> |content| > max
    ensures !Truncated(script, src, max)
    ensures forall limit: nat, code :: !Malformed(script, src, limit, code)
  {
    var k: nat :| k >= 1 && Reach(script, Start(src), Machine([], 0, [], content, k));
    var end := Machine([], 0, [], content, k);
    forall t | Reach(script, Start(src), t)
      ensures |t.out| <= |content| && (!CanStep(script, t) ==> t == end)
    {
      FramesEnd(script, src, content, k, t);
      ReachGrows(script, t, end);
    }
  }

  /** The whole function, for a decoder already configured and a frame header claiming `claimed` bytes. */
  ghost function Decode<S(!new)>(d: Decoder<S>, src: seq<byte>, max: nat, claimed: nat): Outcome
    requires Bounded(d)
  {
    if |src| > FRAME_MAX || max > FRAME_MAX then Outcome(Err(Limit), 0)
    else if src == [] then Outcome(Err(Invalid), 0)
    else Loop(d, d.init, src, 0, [], Reserve(claimed, max), max)
  }

  function Reserve(claimed: nat, max: nat): nat {
    if claimed <= max then claimed else Min(max, CHUNK)
  }

  /**
   `frame_decompress` decides its specification: it accepts exactly the streams of frames whose
   content fits the bound, whatever the first header claims, and returns that content; a stream of
   frames with more content is refused for its size, a truncated one as malformed.
   */
  lemma DecodeIsExact<S(!new)>(d: Decoder<S>, abs: S -> Point, script: Script,
                               src: seq<byte>, max: nat, claimed: nat)
    requires Follows(d, abs, script) && Progresses(d, abs, script) && Prompt(d, abs, script) && Opens(script)
    ensures var r := Decode(d, src, max, claimed).result;
            if |src| > FRAME_MAX || max > FRAME_MAX then r == Err(Limit)
            else
              && (r.Ok? <==> exists content :: |content| <= max && Frames(script, src, content))
              && (forall content :: Frames(script, src, content) ==>
                    r == if |content| <= max then Ok(content) else Err(Limit))
              && (if src == [] then r == Err(Invalid) else Justified(script, src, max, r))
  {
    if |src| > FRAME_MAX || max > FRAME_MAX {
      return;
    }
    var r := Decode(d, src, max, claimed).result;
    var start := At(ORIGIN, src, [], 0);
    assert start == Start(src);
    ReachSelf(script, start);
    if src == [] {
      forall content | Frames(script, src, content) ensures false {
        ReachStuck(script, start, Machine([], 0, [], content, FrameCount(script, src, content)));
      }
    } else {
      assert src[0..] == src;
      LoopIsJustified(d, abs, script, d.init, src, 0, [], Reserve(claimed, max), max, 0);
      forall content | Frames(script, src, content)
        ensures r == if |content| <= max then Ok(content) else Err(Limit)
      {
        FramesHaveNoFault(script, src, content, max);
        if r.Ok? {
          FramesUnique(script, src, content, r.value);
        }
      }
    }
  }

  /** A frame within the bound decodes to its content. */
  lemma DecodesOneFrame<S(!new)>(d: Decoder<S>, abs: S -> Point, script: Script,
                               src: seq<byte>, max: nat, claimed: nat, content: seq<byte>)
    requires Follows(d, abs, script) && Progresses(d, abs, script) && Prompt(d, abs, script) && Opens(script)
    requires |src| <= FRAME_MAX && max <= FRAME_MAX && |content| <= max
    requires OneFrame(script, src, content)
    ensures Decode(d, src, max, claimed).result == Ok(content)
  {
    assert Frames(script, src, content);
    DecodeIsExact(d, abs, script, src, max, claimed);
  }

  ghost function FrameCount(script: Script, src: seq<byte>, content: seq<byte>): (k: nat)
    requires Frames(script, src, content)
    ensures k >= 1 && Reach(script, Start(src), Machine([], 0, [], content, k))
  {
    var k: nat :| k >= 1 && Reach(script, Start(src), Machine([], 0, [], content, k));
    k
  }

  // ----- the method

  /** What the decoder wrote into the spare cells becomes contents; nothing moves, nothing is lost. */
  method Take(out: Growable, ghost content: seq<byte>, emitted: seq<byte>)
    requires out.Valid() && |emitted| <= out.capacity - out.size && out.data != null
    requires out.contents == Cells(content)
    modifies out`size, out`data, out`capacity, out`copied, out`peak, out`contents, out.data, out.heap
    ensures out.Valid() && out.contents == Cells(content + emitted)
    ensures out.data == old(out.data) && out.capacity == old(out.capacity)
    ensures out.peak <= Max(old(out.peak), old(out.size) + |emitted|)
    ensures out.heap.live == old(out.heap.live) && out.heap.Denied() == old(out.heap.Denied())
  {
    out.Fill(emitted);
    var ok := out.Resize(out.size + |emitted|);
    assert Cells(content) + Cells(emitted) == Cells(content + emitted);
  }

  /** The decision and the contents of the buffer are those of the turn. */
  ghost predicate Matches<S>(n: Next<S>, grown: seq<byte>, t: Turn<S>) {
    match n
    case Halt(Err(status)) => t == Stop(Err(status))
    case Halt(Ok(_)) => t == Stop(Ok(grown))
    case More(state, pos) => t == Go(state, pos, grown)
  }

  /** A turn below the bound: make room, decode into it, claim what was decoded. */
  method DecodeTurn<S(!new)>(out: Growable, d: Decoder<S>, s: S, src: seq<byte>, pos: nat, max: nat,
                             ghost content: seq<byte>)
      returns (n: Next<S>, refused: bool, ghost grown: seq<byte>)
    requires Bounded(d) && pos <= |src|
    requires out.Valid() && out.contents == Cells(content) && out.peak <= max && |content| < max
    modifies out`size, out`data, out`capacity, out`copied, out`peak, out`contents, out.data, out.heap
    ensures out.Valid() && out.peak <= max
    ensures out.heap.live == old(out.heap.live) - old(out.Block()) + out.Block()
    ensures out.data == old(out.data) || fresh(out.Block())
    ensures refused ==> out.heap.Denied()
    ensures !refused ==>
              && out.capacity == Offer(|content|, old(out.capacity), max).0
              && out.contents == Cells(grown) && |grown| <= max
              && Matches(n, grown, TurnOf(d.step(s, src[pos..], Offer(|content|, old(out.capacity), max).1),
                                          src, pos, content, max))
  {
    grown := content;
    var ok := out.Spare(Min(max - out.size, CHUNK));
    if !ok {
      return Halt(Err(Alloc)), true, grown;
    }
    var room := Min(out.capacity - out.size, max - out.size);
    assert Offer(|content|, old(out.capacity), max) == (out.capacity, room);
    var a := d.step(s, src[pos..], room);
    n := NextOf(a, pos, |src|, false);
    Take(out, content, a.emitted);
    return n, false, content + a.emitted;
  }

  /** One turn on the buffer, a probe once it is full: what is left of the loop has the same outcome. */
  method OneTurn<S(!new)>(out: Growable, d: Decoder<S>, s: S, src: seq<byte>, pos: nat, max: nat,
                          ghost content: seq<byte>)
      returns (n: Next<S>, refused: bool, ghost grown: seq<byte>)
    requires Bounded(d) && pos <= |src| && |content| <= max
    requires out.Valid() && out.contents == Cells(content) && out.peak <= max
    modifies out`size, out`data, out`capacity, out`copied, out`peak, out`contents, out.data, out.heap
    ensures out.Valid() && out.peak <= max
    ensures out.heap.live == old(out.heap.live) - old(out.Block()) + out.Block()
    ensures out.data == old(out.data) || fresh(out.Block())
    ensures refused ==> out.heap.Denied()
    ensures !refused ==> out.contents == Cells(grown) && |grown| <= max
    ensures !refused ==>
              var o := Loop(d, s, src, pos, content, old(out.capacity), max);
              match n
              case Halt(Err(status)) => o.result == Err(status)
              case Halt(Ok(_)) => o.result == Ok(grown)
              case More(s', pos') =>
                && pos' <= |src| && |src| - pos' + max - |grown| < |src| - pos + max - |content|
                && Loop(d, s', src, pos', grown, out.capacity, max) == o
  {
    if out.size == max {
      var a := d.step(s, src[pos..], 1);
      n, refused, grown := NextOf(a, pos, |src|, true), false, content;
      assert a.emitted == [] ==> content + a.emitted == content;
    } else {
      n, refused, grown := DecodeTurn(out, d, s, src, pos, max, content);
    }
  }

  /** The loop with its buffer; on failure the buffer's destructor has run. */
  method Body<S(!new)>(heap: Heap, d: Decoder<S>, src: seq<byte>, max: nat, claimed: nat) returns (r: Result<Growable>)
    requires Bounded(d)
    modifies heap
    ensures r.Ok? ==>
              && var out := r.value;
              && fresh(out) && fresh(out.Block()) && out.heap == heap && out.Valid()
              && heap.live == old(heap.live) + out.Block()
              && out.capacity <= max + max / 2
              && Loop(d, d.init, src, 0, [], Reserve(claimed, max), max).result.Ok?
              && out.contents == Cells(Loop(d, d.init, src, 0, [], Reserve(claimed, max), max).result.value)
    ensures r.Err? ==> heap.live == old(heap.live)
    ensures r.Err? ==>
              || (r.status == Alloc && heap.Denied())
              || Loop(d, d.init, src, 0, [], Reserve(claimed, max), max).result == Err(r.status)
  {
    var out := new Growable(heap);
    var ok := out.Reserve(Reserve(claimed, max));
    if !ok {
      return Err(Alloc);
    }
    var s := d.init;
    var pos: nat := 0;
    ghost var content: seq<byte> := [];
    ghost var goal := Loop(d, d.init, src, 0, [], Reserve(claimed, max), max);
    while true
      invariant pos <= |src| && |content| <= max
      invariant fresh(out) && fresh(out.Block()) && out.heap == heap && out.Valid()
      invariant out.contents == Cells(content)
      invariant heap.live == old(heap.live) + out.Block()
      invariant out.reserved <= max && out.peak <= max
      invariant Loop(d, s, src, pos, content, out.capacity, max) == goal
      decreases |src| - pos + max - |content|
    {
      var next, refused, grown := OneTurn(out, d, s, src, pos, max, content);
      if refused {
        out.Destroy();
        return Err(Alloc);
      }
      content := grown;
      match next
      case Halt(Ok(_)) =>
        return Ok(out);
      case Halt(Err(status)) =>
        out.Destroy();
        return Err(status);
      case More(s', pos') =>
        s, pos := s', pos';
    }
  }

  /** The decoder that `frame_decompress` configures for a bound. */
  ghost function Configured<S(!new)>(configure: nat -> Decoder<S>, max: nat): Decoder<S> {
    configure(Max(WindowLog(max), 23))
  }

  /** `frame_decompress`, for the family of decoders that a window limit configures. */
  method FrameDecompress<S(!new)>(heap: Heap, configure: nat -> Decoder<S>, src: seq<byte>, max: nat, claimed: nat)
      returns (r: Result<Growable>)
    requires forall w :: Bounded(configure(w))
    modifies heap
    ensures r.Ok? ==>
              && var out := r.value;
              && fresh(out) && fresh(out.Block()) && out.heap == heap && out.Valid()
              && heap.live == old(heap.live) + out.Block()
              && out.capacity <= max + max / 2
              && Decode(Configured(configure, max), src, max, claimed).result.Ok?
              && out.contents == Cells(Decode(Configured(configure, max), src, max, claimed).result.value)
    ensures r.Err? ==> heap.live == old(heap.live)
    ensures r.Err? ==>
              || (r.status == Alloc && heap.Denied())
              || Decode(Configured(configure, max), src, max, claimed).result == Err(r.status)
  {
    if !(|src| <= FRAME_MAX && max <= FRAME_MAX) {
      return Err(Limit);
    }
    if src == [] {
      return Err(Invalid);
    }
    var ctx := heap.Realloc(null, 1);
    if ctx == null {
      return Err(Alloc);
    }
    var window := SearchWindow(max);
    r := Body(heap, configure(Max(window, 23)), src, max, claimed);
    heap.Free(ctx);
  }
}
