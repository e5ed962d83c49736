/** Decoding exactly one frame into a buffer of known size: `zstd_apply`. */
module SingleFrame {
  import opened Basics
  import opened Script
  import opened Codec
  import opened Buffers
  import Windows

  /** What ZSTD_getFrameHeader says of a payload. */
  datatype FrameHeader =
    | Unreadable(code: nat)
    | NeedsMore
    | Parsed(standard: bool, window: nat, size: Maybe<nat>)

  /** The checks before any decoding; `tn` is the size of the destination. */
  function Precheck(bn: nat, dn: nat, tn: nat, header: FrameHeader): Result<()> {
    if !(bn <= RAW_MAX && tn <= RAW_MAX && dn <= PAYLOAD_MAX) then Err(Limit)
    else if header.Unreadable? then Err(ZStatus(header.code))
    else if header.NeedsMore? || !header.standard then Err(Invalid)
    else if header.window > Pow2(ZSTD_WINDOW_LOG_MAX) then Err(Limit)
    else if header.size.Some? && header.size.get != tn then Err(Invalid)
    else Ok(())
  }

  datatype Next<+S> = Halt(result: Result<()>) | More(state: S)

  /** The checks after a call, with `dn` and `tn` bytes to read and write and `read` and `written` before it. */
  function NextOf<S>(r: Reply<S>, read: nat, dn: nat, written: nat, tn: nat): Next<S>
    requires written <= tn
  {
    if r.code.Error? then Halt(Err(ZStatus(r.code.code)))
    else if |r.emitted| > tn - written then Halt(Err(Limit))
    else if r.code == Hint(0) then
      Halt(if read + r.consumed == dn && written + |r.emitted| == tn then Ok(()) else Err(Invalid))
    else if r.consumed == 0 && r.emitted == [] then Halt(Err(Invalid))
    else More(r.state)
  }

  function InputWindow(src: seq<byte>, read: nat): seq<byte>
    requires read <= |src|
  {
    src[read..read + Min(CHUNK, |src| - read)]
  }

  /** The room offered: a window of the destination, or one spare byte once it is full. */
  function OutputWindow(written: nat, tn: nat): (room: nat)
    requires written <= tn
    ensures room > 0
  {
    if written == tn then 1 else Min(CHUNK, tn - written)
  }

  /** The decode loop for any decoder that stays inside its buffers; it always ends. */
  ghost function Loop<S(!new)>(d: Decoder<S>, s: S, src: seq<byte>, read: nat, out: seq<byte>, tn: nat)
      : Result<seq<byte>>
    requires Bounded(d) && read <= |src| && |out| <= tn
    decreases |src| - read + tn - |out|
  {
    var r := d.step(s, InputWindow(src, read), OutputWindow(|out|, tn));
    match NextOf(r, read, |src|, |out|, tn)
    case Halt(Err(status)) => Err(status)
    case Halt(Ok(_)) => Ok(out + r.emitted)
    case More(s') => Loop(d, s', src, read + r.consumed, out + r.emitted, tn)
  }

  /** `zstd_apply` on a decoder already configured with the base as prefix. */
  ghost function Decode<S(!new)>(d: Decoder<S>, bn: nat, src: seq<byte>, tn: nat, header: FrameHeader)
      : Result<seq<byte>>
    requires Bounded(d)
  {
    match Precheck(bn, |src|, tn, header)
    case Err(status) => Err(status)
    case Ok(_) => Loop(d, d.init, src, 0, [], tn)
  }

  /**
   What `zstd_apply` promises to look at: sizes within the limits, and the header of a standard frame
   with a window of at most 2^30 and no other content size than the destination's.
   */
  ghost predicate Admissible(bn: nat, dn: nat, tn: nat, header: FrameHeader) {
    && bn <= RAW_MAX && tn <= RAW_MAX && dn <= PAYLOAD_MAX
    && header.Parsed? && header.standard && header.window <= 0x4000_0000
    && (header.size.Some? ==> header.size.get == tn)
  }

  /** Nothing else is decoded, and each thing that is not is refused with its own status. */
  lemma HeaderIsChecked<S(!new)>(d: Decoder<S>, bn: nat, src: seq<byte>, tn: nat, header: FrameHeader)
    requires Bounded(d)
    ensures var r := Decode(d, bn, src, tn, header);
            if bn > RAW_MAX || tn > RAW_MAX || |src| > PAYLOAD_MAX then r == Err(Limit)
            else
              match header
              case Unreadable(code) => r == Err(if code == 64 then Alloc else Zstd(code))
              case NeedsMore => r == Err(Invalid)
              case Parsed(standard, window, size) =>
                && (!standard ==> r == Err(Invalid))
                && (standard && window > 0x4000_0000 ==> r == Err(Limit))
                && (standard && window <= 0x4000_0000 && size.Some? && size.get != tn ==> r == Err(Invalid))
                && (Admissible(bn, |src|, tn, header) ==> r == Loop(d, d.init, src, 0, [], tn))
  {
    Windows.BigPowers();
  }

  // ----- the loop against the script

  /** A call on a window of the payload moves the run on the whole payload. */
  lemma Advance<S(!new)>(d: Decoder<S>, abs: S -> Point, script: Script, s: S,
                         src: seq<byte>, read: nat, room: nat, out: seq<byte>)
    requires Follows(d, abs, script)
    requires Along(script, src, abs(s), read, out, 0)
    ensures var r := d.step(s, InputWindow(src, read), room);
            match r.code
            case Error(code) =>
              exists t ::
                && Reach(script, Start(src), t)
                && ActOf(script, t) == Fail(code)
                && |t.out| <= |out| + room && t.frames == 0
            case Hint(more) =>
              && Along(script, src, abs(r.state), read + r.consumed, out + r.emitted, Ended(r.code))
              && (more == 0 ==> abs(r.state) == ORIGIN)
  {
    var input := InputWindow(src, read);
    var rest := src[read + |input|..];
    var r := d.step(s, input, room);
    var m := At(abs(s), src[read..], out, 0);
    assert input + rest == src[read..];
    CallAdvances(d, abs, script, s, input, rest, room, out, 0);
    match r.code
    case Error(code) =>
      var t :| Reach(script, m, t) && ActOf(script, t) == Fail(code)
               && |t.out| <= |out| + room && t.frames == 0;
      ReachTrans(script, Start(src), m, t);
    case Hint(more) =>
      assert src[read..][r.consumed..] == src[read + r.consumed..];
      ReachTrans(script, Start(src), m, At(abs(r.state), src[read + r.consumed..], out + r.emitted, Ended(r.code)));
  }

  /** `src` begins with a frame of `content`, and `rest` is behind it. */
  ghost predicate Leads(script: Script, src: seq<byte>, content: seq<byte>, rest: seq<byte>) {
    Reach(script, Start(src), Machine([], 0, rest, content, 1))
  }

  /** In the run of a payload that begins with a frame, everything before its end is on the way to it. */
  lemma BeforeTheEnd(script: Script, src: seq<byte>, content: seq<byte>, rest: seq<byte>, t: Machine)
    requires Leads(script, src, content, rest) && Reach(script, Start(src), t)
    ensures t.frames == 0 ==> CanStep(script, t) && t.out <= content && |rest| <= |t.unread|
    ensures t.frames == 1 && t.AtBoundary() ==> t == Machine([], 0, rest, content, 1)
  {
    var end := Machine([], 0, rest, content, 1);
    ReachOrder(script, Start(src), t, end);
    if Reach(script, t, end) {
      ReachGrows(script, t, end);
      if t.frames == 1 && t.AtBoundary() { ReachBoundary(script, t, end); }
      if !CanStep(script, t) { ReachStuck(script, t, end); }
    } else {
      ReachGrows(script, end, t);
      if t.frames == 1 && t.AtBoundary() { ReachBoundary(script, end, t); }
    }
  }

  /** Whatever a decoder of the script answers, success means: one frame, nothing after it, `tn` bytes. */
  lemma {:induction false} LoopIsSound<S(!new)>(
      d: Decoder<S>, abs: S -> Point, script: Script, s: S, src: seq<byte>, read: nat, out: seq<byte>, tn: nat)
    requires Follows(d, abs, script)
    requires Along(script, src, abs(s), read, out, 0) && |out| <= tn
    ensures var r := Loop(d, s, src, read, out, tn);
            r.Ok? ==> |r.value| == tn && OneFrame(script, src, r.value)
    decreases |src| - read + tn - |out|
  {
    var r := d.step(s, InputWindow(src, read), OutputWindow(|out|, tn));
    Advance(d, abs, script, s, src, read, OutputWindow(|out|, tn), out);
    match NextOf(r, read, |src|, |out|, tn)
    case Halt(result) =>
      if result.Ok? {
        assert At(ORIGIN, src[|src|..], out + r.emitted, 1) == Machine([], 0, [], out + r.emitted, 1);
      }
    case More(s') => LoopIsSound(d, abs, script, s', src, read + r.consumed, out + r.emitted, tn);
  }

  /** What has to come of a frame of `content` with `rest` behind it. */
  function Verdict(content: seq<byte>, rest: seq<byte>, tn: nat): Result<seq<byte>> {
    if |content| > tn then Err(Limit)
    else if |content| == tn && rest == [] then Ok(content)
    else Err(Invalid)
  }

  /** On a payload that begins with a frame, a turn gives the verdict or stays inside the frame. */
  lemma TurnOnFrame<S(!new)>(d: Decoder<S>, abs: S -> Point, script: Script, s: S, src: seq<byte>, read: nat,
                             out: seq<byte>, content: seq<byte>, rest: seq<byte>, tn: nat)
    requires Follows(d, abs, script) && Progresses(d, abs, script)
    requires Along(script, src, abs(s), read, out, 0) && |out| <= tn
    requires Leads(script, src, content, rest)
    ensures var r := d.step(s, InputWindow(src, read), OutputWindow(|out|, tn));
            match NextOf(r, read, |src|, |out|, tn)
            case Halt(Ok(_)) => Verdict(content, rest, tn) == Ok(out + r.emitted)
            case Halt(Err(status)) => Verdict(content, rest, tn) == Err(status)
            case More(_) => r.code.Hint? && r.code != Hint(0)
  {
    var room := OutputWindow(|out|, tn);
    var r := d.step(s, InputWindow(src, read), room);
    Advance(d, abs, script, s, src, read, room, out);
    if r.code.Error? {
      var t :| Reach(script, Start(src), t) && ActOf(script, t) == Fail(r.code.code) && t.frames == 0;
      BeforeTheEnd(script, src, content, rest, t);
    } else {
      BeforeTheEnd(script, src, content, rest,
                   At(abs(r.state), src[read + r.consumed..], out + r.emitted, Ended(r.code)));
      BeforeTheEnd(script, src, content, rest, At(abs(s), src[read..], out, 0));
      assert CanMove(script, abs(s), InputWindow(src, read), room);
    }
  }

  lemma {:induction false} LoopOnFrame<S(!new)>(
      d: Decoder<S>, abs: S -> Point, script: Script, s: S, src: seq<byte>, read: nat,
      out: seq<byte>, content: seq<byte>, rest: seq<byte>, tn: nat)
    requires Follows(d, abs, script) && Progresses(d, abs, script)
    requires Along(script, src, abs(s), read, out, 0) && |out| <= tn
    requires Leads(script, src, content, rest)
    ensures Loop(d, s, src, read, out, tn) == Verdict(content, rest, tn)
    decreases |src| - read + tn - |out|
  {
    var r := d.step(s, InputWindow(src, read), OutputWindow(|out|, tn));
    Advance(d, abs, script, s, src, read, OutputWindow(|out|, tn), out);
    TurnOnFrame(d, abs, script, s, src, read, out, content, rest, tn);
    match NextOf(r, read, |src|, |out|, tn)
    case Halt(_) =>
    case More(s') => LoopOnFrame(d, abs, script, s', src, read + r.consumed, out + r.emitted, content, rest, tn);
  }

  /**
   A frame with anything behind it, or with another size than stated, is refused: for its size if it
   has more content than the destination, as malformed otherwise.
   */
  lemma MismatchIsRefused<S(!new)>(d: Decoder<S>, abs: S -> Point, script: Script, bn: nat,
                                   frame: seq<byte>, content: seq<byte>, rest: seq<byte>, tn: nat, header: FrameHeader)
    requires Follows(d, abs, script) && Progresses(d, abs, script) && OneFrame(script, frame, content)
    requires Admissible(bn, |frame + rest|, tn, header)
    ensures Decode(d, bn, frame + rest, tn, header)
            == if |content| > tn then Err(Limit)
               else if |content| == tn && rest == [] then Ok(content)
               else Err(Invalid)
  {
    var src := frame + rest;
    var end := Machine([], 0, [], content, 1);
    ReachWithin(script, Start(frame), end, [], 0, rest);
    assert Start(frame).Within([], 0, rest) == Start(src);
    assert end.Within([], 0, rest) == Machine([], 0, rest, content, 1);
    assert src[0..] == src;
    ReachSelf(script, Start(src));
    LoopOnFrame(d, abs, script, d.init, src, 0, [], content, rest, tn);
    HeaderIsChecked(d, bn, src, tn, header);
  }

  // ----- payloads that do not begin with a frame

  /** The first frame has more content than the destination. */
  ghost predicate Exceeds(script: Script, src: seq<byte>, tn: nat) {
    exists t :: Reach(script, Start(src), t) && |t.out| > tn && t.frames <= 1
  }

  /** The payload ends inside its first frame. */
  ghost predicate Truncated(script: Script, src: seq<byte>, tn: nat) {
    exists t ::
      && Reach(script, Start(src), t)
      && ActOf(script, t) == Read && t.unread == [] && t.frames == 0
      && |t.out| <= tn
  }

  /** The first frame is malformed, after at most `limit` content bytes. */
  ghost predicate Malformed(script: Script, src: seq<byte>, limit: nat, code: nat) {
    exists t :: Reach(script, Start(src), t) && ActOf(script, t) == Fail(code) && t.frames == 0 && |t.out| <= limit
  }

  /** The first frame is complete, but smaller than the destination or not all of the payload. */
  ghost predicate Misfit(script: Script, src: seq<byte>, tn: nat) {
    exists content, rest :: Leads(script, src, content, rest) && |content| <= tn && (rest != [] || |content| < tn)
  }

  ghost predicate Justified(script: Script, src: seq<byte>, tn: nat, r: Result<seq<byte>>) {
    match r
    case Ok(content) => |content| == tn && OneFrame(script, src, content)
    case Err(status) =>
      || (status == Limit && Exceeds(script, src, tn))
      || (status == Invalid && (Truncated(script, src, tn) || Misfit(script, src, tn)))
      || (exists code :: status == ZStatus(code) && Malformed(script, src, tn + 1, code))
  }

  /** A turn that ends the loop has a reason in the payload. */
  lemma TurnIsJustified<S(!new)>(d: Decoder<S>, abs: S -> Point, script: Script, s: S, src: seq<byte>, read: nat,
                                 out: seq<byte>, tn: nat)
    requires Follows(d, abs, script) && Progresses(d, abs, script)
    requires Along(script, src, abs(s), read, out, 0) && |out| <= tn
    ensures var r := d.step(s, InputWindow(src, read), OutputWindow(|out|, tn));
            match NextOf(r, read, |src|, |out|, tn)
            case Halt(Ok(_)) => Justified(script, src, tn, Ok(out + r.emitted))
            case Halt(Err(status)) => Justified(script, src, tn, Err(status))
            case More(_) => r.code.Hint? && r.code != Hint(0)
  {
    var room := OutputWindow(|out|, tn);
    var r := d.step(s, InputWindow(src, read), room);
    Advance(d, abs, script, s, src, read, room, out);
    if r.code.Hint? {
      var t := At(abs(r.state), src[read + r.consumed..], out + r.emitted, Ended(r.code));
      if r.code == Hint(0) && |t.out| <= tn {
        assert t == Machine([], 0, t.unread, t.out, 1);
        assert Leads(script, src, t.out, t.unread);
      } else if |t.out| <= tn && r.consumed == 0 && r.emitted == [] {
        assert !CanMove(script, abs(s), InputWindow(src, read), room);
        assert ActOf(script, At(abs(s), src[read..], out, 0)) == Read;
      }
    }
  }

  lemma {:induction false} LoopIsJustified<S(!new)>(
      d: Decoder<S>, abs: S -> Point, script: Script, s: S, src: seq<byte>, read: nat, out: seq<byte>, tn: nat)
    requires Follows(d, abs, script) && Progresses(d, abs, script)
    requires Along(script, src, abs(s), read, out, 0) && |out| <= tn
    ensures Justified(script, src, tn, Loop(d, s, src, read, out, tn))
    decreases |src| - read + tn - |out|
  {
    var r := d.step(s, InputWindow(src, read), OutputWindow(|out|, tn));
    Advance(d, abs, script, s, src, read, OutputWindow(|out|, tn), out);
    TurnIsJustified(d, abs, script, s, src, read, out, tn);
    match NextOf(r, read, |src|, |out|, tn)
    case Halt(_) =>
    case More(s') => LoopIsJustified(d, abs, script, s', src, read + r.consumed, out + r.emitted, tn);
  }

  /** The run of `bytes` gets stuck in its first frame, at `t`. */
  ghost predicate StuckAt(script: Script, bytes: seq<byte>, t: Machine) {
    Reach(script, Start(bytes), t) && !CanStep(script, t) && t.frames == 0
  }

  /** The status for getting stuck: the decoder's own if the frame is malformed, invalid if it is cut short. */
  function Fault(script: Script, t: Machine): Status {
    if ActOf(script, t).Fail? then ZStatus(ActOf(script, t).code) else Invalid
  }

  lemma BeforeTheFault(script: Script, bytes: seq<byte>, t: Machine, u: Machine)
    requires StuckAt(script, bytes, t) && Reach(script, Start(bytes), u)
    ensures u.out <= t.out && u.frames == 0 && (!CanStep(script, u) ==> u == t)
  {
    ReachOrder(script, Start(bytes), u, t);
    if Reach(script, u, t) {
      ReachGrows(script, u, t);
      if !CanStep(script, u) { ReachStuck(script, u, t); }
    } else {
      ReachStuck(script, t, u);
    }
  }

  /**
   A payload whose first frame gets stuck within the destination is refused as that fault demands:
   as invalid if it is cut short, with the decoder's own code if it is malformed.
   */
  lemma FaultIsReported<S(!new)>(d: Decoder<S>, abs: S -> Point, script: Script, bn: nat,
                                 src: seq<byte>, tn: nat, header: FrameHeader, t: Machine)
    requires Follows(d, abs, script) && Progresses(d, abs, script)
    requires Admissible(bn, |src|, tn, header)
    requires StuckAt(script, src, t) && |t.out| <= tn
    ensures Decode(d, bn, src, tn, header) == Err(Fault(script, t))
  {
    ReachSelf(script, Start(src));
    assert src[0..] == src;
    LoopIsJustified(d, abs, script, d.init, src, 0, [], tn);
    HeaderIsChecked(d, bn, src, tn, header);
    forall u | Reach(script, Start(src), u)
      ensures u.out <= t.out && u.frames == 0 && (!CanStep(script, u) ==> u == t)
    {
      BeforeTheFault(script, src, t, u);
    }
  }

  /**
   With a decoder that progresses, whatever `zstd_apply` returns for a payload whose header is
   admissible has its reason in the payload.
   */
  lemma DecodeIsJustified<S(!new)>(d: Decoder<S>, abs: S -> Point, script: Script,
                                   bn: nat, src: seq<byte>, tn: nat, header: FrameHeader)
    requires Follows(d, abs, script) && Progresses(d, abs, script)
    requires Admissible(bn, |src|, tn, header)
    ensures Justified(script, src, tn, Decode(d, bn, src, tn, header))
  {
    ReachSelf(script, Start(src));
    assert src[0..] == src;
    HeaderIsChecked(d, bn, src, tn, header);
    LoopIsJustified(d, abs, script, d.init, src, 0, [], tn);
  }

  /**
   `zstd_apply` decides its specification.  Success means sizes within the limits and exactly one
   standard frame, nothing behind it, with a window of at most 2^30 and exactly the stated content
   size, however the decoder splits its work over the windows; and with a decoder that progresses,
   every such payload succeeds.
   */
  lemma DecodeIsExact<S(!new)>(d: Decoder<S>, abs: S -> Point, script: Script,
                               bn: nat, src: seq<byte>, tn: nat, header: FrameHeader)
    requires Follows(d, abs, script)
    ensures var r := Decode(d, bn, src, tn, header);
            && (r.Ok? ==>
                  && bn <= RAW_MAX && tn <= RAW_MAX && |src| <= PAYLOAD_MAX
                  && header.Parsed? && header.standard && header.window <= 0x4000_0000
                  && (header.size.Some? ==> header.size.get == tn)
                  && |r.value| == tn && OneFrame(script, src, r.value))
            && (Progresses(d, abs, script)
                && bn <= RAW_MAX && tn <= RAW_MAX && |src| <= PAYLOAD_MAX
                && header.Parsed? && header.standard && header.window <= 0x4000_0000
                && (header.size.Some? ==> header.size.get == tn)
                && DecodesTo(script, src, tn) ==>
                  r.Ok?)
  {
    HeaderIsChecked(d, bn, src, tn, header);
    if Admissible(bn, |src|, tn, header) {
      LoopIsExact(d, abs, script, src, tn);
    }
  }

  lemma LoopIsExact<S(!new)>(d: Decoder<S>, abs: S -> Point, script: Script, src: seq<byte>, tn: nat)
    requires Follows(d, abs, script)
    ensures var r := Loop(d, d.init, src, 0, [], tn);
            && (r.Ok? ==> |r.value| == tn && OneFrame(script, src, r.value))
            && (Progresses(d, abs, script) && DecodesTo(script, src, tn) ==> r.Ok?)
  {
    ReachSelf(script, Start(src));
    assert src[0..] == src;
    assert At(ORIGIN, src, [], 0) == Start(src);
    LoopIsSound(d, abs, script, d.init, src, 0, [], tn);
    if Progresses(d, abs, script) && DecodesTo(script, src, tn) {
      var content :| |content| == tn && OneFrame(script, src, content);
      LoopOnFrame(d, abs, script, d.init, src, 0, [], content, [], tn);
    }
  }

  /** With a decoder that progresses, a content comes out exactly if the payload is its frame. */
  lemma DecodeReturns<S(!new)>(d: Decoder<S>, abs: S -> Point, script: Script,
                               bn: nat, src: seq<byte>, content: seq<byte>, header: FrameHeader)
    requires Follows(d, abs, script) && Progresses(d, abs, script)
    ensures Decode(d, bn, src, |content|, header) == Ok(content)
            <==> Admissible(bn, |src|, |content|, header) && OneFrame(script, src, content)
  {
    DecodeIsExact(d, abs, script, bn, src, |content|, header);
    if Admissible(bn, |src|, |content|, header) && OneFrame(script, src, content) {
      assert DecodesTo(script, src, |content|);
      OneFrameUnique(script, src, content, Decode(d, bn, src, |content|, header).value);
    }
  }

  // ----- the method

  /** The decode loop writing into `dst`; after a failure `dst` may hold partial output. */
  method Body<S(!new)>(d: Decoder<S>, src: seq<byte>, dst: array<Cell>) returns (r: Result<()>)
    requires Bounded(d)
    modifies dst
    ensures match Loop(d, d.init, src, 0, [], dst.Length)
            case Ok(content) => r == Ok(()) && dst[..] == Cells(content)
            case Err(status) => r == Err(status)
  {
    var s := d.init;
    var read: nat, written: nat := 0, 0;
    ghost var out: seq<byte> := [];
    ghost var goal := Loop(d, d.init, src, 0, [], dst.Length);
    while true
      invariant read <= |src| && written == |out| <= dst.Length
      invariant dst[..written] == Cells(out)
      invariant Loop(d, s, src, read, out, dst.Length) == goal
      decreases |src| - read + dst.Length - written
    {
      var a := d.step(s, InputWindow(src, read), OutputWindow(written, dst.Length));
      var next := NextOf(a, read, |src|, written, dst.Length);
      if written < dst.Length {
        forall i | 0 <= i < |a.emitted| {
          dst[written + i] := Byte(a.emitted[i]);
        }
      }
      match next
      case Halt(Err(status)) =>
        return Err(status);
      case Halt(Ok(_)) =>
        assert dst[..] == Cells(out + a.emitted);
        return Ok(());
      case More(s') =>
        s, read, written := s', read + a.consumed, written + |a.emitted|;
        out := out + a.emitted;
        assert dst[..written] == Cells(out);
    }
  }

  /** `zstd_apply`: `prepare(window, base)` configures a decoder, `header` reads frame headers. */
  method ZstdApply<S(!new)>(heap: Heap, prepare: (nat, seq<byte>) -> Decoder<S>, header: seq<byte> -> FrameHeader,
                            base: seq<byte>, src: seq<byte>, dst: array<Cell>) returns (r: Result<()>)
    requires forall w, b :: Bounded(prepare(w, b))
    requires dst !in heap.live
    modifies heap, dst
    ensures heap.live == old(heap.live)
    ensures || (r == Err(Alloc) && heap.Denied())
            || match Decode(prepare(ZSTD_WINDOW_LOG_MAX, base), |base|, src, dst.Length, header(src))
               case Ok(content) => r == Ok(()) && dst[..] == Cells(content)
               case Err(status) => r == Err(status)
  {
    r := Precheck(|base|, |src|, dst.Length, header(src));
    if r.Err? {
      return;
    }
    var ctx := heap.Realloc(null, 1);
    if ctx == null {
      return Err(Alloc);
    }
    r := Body(prepare(ZSTD_WINDOW_LOG_MAX, base), src, dst);
    heap.Free(ctx);
  }
}
