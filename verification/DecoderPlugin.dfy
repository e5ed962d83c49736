/** The streaming decoder that HDiffPatch pulls its diff data through: open, decompress_part, close. */
module DecoderPlugin {
  import opened Basics
  import opened Script
  import opened Codec
  import opened Buffers
  import opened Streams
  import SingleFrame

  // ----- the plugin as a value

  /** The state of an open decoder; `input` is the unread part of the refill buffer. */
  datatype Plug<+S> = Plug(
    ctx: S, source: seq<byte>, pos: nat, stop: nat, remaining: nat, input: seq<byte>, finished: bool)
  {
    predicate InRange() {
      pos <= stop <= |source|
    }

    /** Everything of the range that the decoder has not read: the rest of the buffer, then the source. */
    function Unread(): seq<byte>
      requires InRange()
    {
      input + source[pos..stop]
    }
  }

  function Open<S>(d: Decoder<S>, source: seq<byte>, size: nat, b: nat, e: nat): Result<Plug<S>> {
    if b <= e && e <= |source| && size <= PAYLOAD_MAX
    then Ok(Plug(d.init, source, b, e, size, [], false))
    else Err(Invalid)
  }

  function Refill<S>(p: Plug<S>): Plug<S>
    requires p.InRange()
  {
    if p.input != [] || p.pos == p.stop then p
    else
      var n := Min(CHUNK, p.stop - p.pos);
      p.(input := p.source[p.pos..p.pos + n], pos := p.pos + n)
  }

  /** Refilling moves bytes from the source to the buffer; none is lost, skipped or read twice. */
  lemma RefillConserves<S>(p: Plug<S>)
    requires p.InRange()
    ensures Refill(p).InRange() && Refill(p).Unread() == p.Unread()
    ensures Refill(p).input == [] <==> p.Unread() == []
  {
    var q := Refill(p);
    if q != p {
      assert p.source[p.pos..q.pos] + p.source[q.pos..p.stop] == p.source[p.pos..p.stop];
    }
  }

  function Call<S>(d: Decoder<S>, p: Plug<S>, room: nat): Reply<S>
    requires p.InRange()
  {
    d.step(p.ctx, Refill(p).input, room)
  }

  /** The state after a call that succeeded. */
  function After<S>(p: Plug<S>, r: Reply<S>): Plug<S>
    requires p.InRange() && r.consumed <= |Refill(p).input|
  {
    Refill(p).(ctx := r.state, input := Refill(p).input[r.consumed..], finished := r.code == Hint(0))
  }

  /** The loop of decompress_part, which has `got` of the `want` bytes asked for. */
  ghost function PartLoop<S(!new)>(d: Decoder<S>, p: Plug<S>, got: seq<byte>, want: nat): Result<(Plug<S>, seq<byte>)>
    requires Bounded(d) && p.InRange() && |got| <= want
    ensures var r := PartLoop(d, p, got, want);
            r.Ok? ==>
              && var (q, bytes) := r.value;
              && got <= bytes && |bytes| == want
              && q.InRange() && q.source == p.source && q.stop == p.stop && q.remaining == p.remaining
    decreases p.stop - p.pos + |p.input| + want - |got|
  {
    if |got| == want then Ok((p, got))
    else if p.finished then Err(Invalid)
    else
      var r := Call(d, p, want - |got|);
      if r.code.Error? then Err(ZStatus(r.code.code))
      else if r.consumed == 0 && r.emitted == [] then Err(Invalid)
      else PartLoop(d, After(p, r), got + r.emitted, want)
  }

  ghost function Part<S(!new)>(d: Decoder<S>, p: Plug<S>, want: nat): Result<(Plug<S>, seq<byte>)>
    requires Bounded(d) && p.InRange()
    ensures var r := Part(d, p, want);
            r.Ok? ==> |r.value.1| == want <= p.remaining && r.value.0.InRange()
                      && r.value.0.remaining == p.remaining - want
  {
    if want > p.remaining then Err(Invalid)
    else
      match PartLoop(d, p, [], want)
      case Err(status) => Err(status)
      case Ok((q, bytes)) => Ok((q.(remaining := p.remaining - want), bytes))
  }

  /** The loop of close: run to the end of the frame, accepting no more output. */
  ghost function CloseLoop<S(!new)>(d: Decoder<S>, p: Plug<S>): Result<Plug<S>>
    requires Bounded(d) && p.InRange()
    ensures CloseLoop(d, p).Ok? ==> CloseLoop(d, p).value.InRange()
    decreases p.stop - p.pos + |p.input|, !p.finished
  {
    if p.finished then Ok(p)
    else
      var r := Call(d, p, 1);
      if r.code.Error? then Err(ZStatus(r.code.code))
      else if r.emitted != [] then Err(Invalid)
      else if r.code != Hint(0) && r.consumed == 0 then Err(Invalid)
      else CloseLoop(d, After(p, r))
  }

  ghost function Close<S(!new)>(d: Decoder<S>, p: Plug<S>): Result<bool>
    requires Bounded(d) && p.InRange()
  {
    if p.remaining != 0 then Ok(false)
    else
      match CloseLoop(d, p)
      case Err(status) => Err(status)
      case Ok(q) => Ok(q.pos == q.stop && q.input == [])
  }

  ghost function Parts<S(!new)>(d: Decoder<S>, p: Plug<S>, lengths: seq<nat>): Result<(Plug<S>, seq<byte>)>
    requires Bounded(d) && p.InRange()
    ensures Parts(d, p, lengths).Ok? ==> Parts(d, p, lengths).value.0.InRange()
    decreases lengths
  {
    if lengths == [] then Ok((p, []))
    else
      match Part(d, p, lengths[0])
      case Err(status) => Err(status)
      case Ok((q, bytes)) =>
        match Parts(d, q, lengths[1..])
        case Err(status) => Err(status)
        case Ok((t, more)) => Ok((t, bytes + more))
  }

  /** A whole use of the plugin: what was delivered, if it closed with success; otherwise it was all for nothing. */
  ghost function Session<S(!new)>(d: Decoder<S>, source: seq<byte>, size: nat, b: nat, e: nat,
                                  lengths: seq<nat>): Result<seq<byte>>
    requires Bounded(d)
  {
    match Open(d, source, size, b, e)
    case Err(status) => Err(status)
    case Ok(p) =>
      match Parts(d, p, lengths)
      case Err(status) => Err(status)
      case Ok((q, bytes)) =>
        match Close(d, q)
        case Err(status) => Err(status)
        case Ok(complete) => if complete then Ok(bytes) else Err(Invalid)
  }

  // ----- the session against the script

  /** The plugin is where the run of the script on `bytes` is after emitting `out`. */
  ghost predicate On<S>(abs: S -> Point, script: Script, bytes: seq<byte>, p: Plug<S>, out: seq<byte>) {
    && p.InRange()
    && Reach(script, Start(bytes), At(abs(p.ctx), p.Unread(), out, if p.finished then 1 else 0))
    && (p.finished ==> abs(p.ctx) == ORIGIN)
  }

  function Sum(lengths: seq<nat>): nat {
    if lengths == [] then 0 else lengths[0] + Sum(lengths[1..])
  }

  /** One call inside the frame moves the run, wherever the refill boundaries fall. */
  lemma CallOn<S(!new)>(d: Decoder<S>, abs: S -> Point, script: Script, bytes: seq<byte>,
                        p: Plug<S>, out: seq<byte>, room: nat)
    requires Follows(d, abs, script) && On(abs, script, bytes, p, out) && !p.finished
    ensures var r := Call(d, p, room);
            match r.code
            case Error(code) =>
              exists t :: Reach(script, Start(bytes), t) && ActOf(script, t) == Fail(code) && t.frames == 0
            case Hint(_) =>
              && r.consumed <= |Refill(p).input|
              && On(abs, script, bytes, After(p, r), out + r.emitted)
  {
    var q := Refill(p);
    RefillConserves(p);
    var rest := q.source[q.pos..q.stop];
    var r := Call(d, p, room);
    var m := At(abs(p.ctx), p.Unread(), out, 0);
    CallAdvances(d, abs, script, p.ctx, q.input, rest, room, out, 0);
    match r.code
    case Error(code) =>
      var t :| Reach(script, m, t) && ActOf(script, t) == Fail(code)
               && |t.out| <= |out| + room && t.frames == 0;
      ReachTrans(script, Start(bytes), m, t);
    case Hint(_) =>
      var t := After(p, r);
      assert (q.input + rest)[r.consumed..] == t.Unread();
      ReachTrans(script, Start(bytes), m, At(abs(t.ctx), t.Unread(), out + r.emitted, Ended(r.code)));
  }

  lemma {:induction false} PartLoopOn<S(!new)>(d: Decoder<S>, abs: S -> Point, script: Script, bytes: seq<byte>,
                                               p: Plug<S>, out: seq<byte>, got: seq<byte>, want: nat)
    requires Follows(d, abs, script) && On(abs, script, bytes, p, out + got) && |got| <= want
    ensures var r := PartLoop(d, p, got, want);
            r.Ok? ==> On(abs, script, bytes, r.value.0, out + r.value.1)
    decreases p.stop - p.pos + |p.input| + want - |got|
  {
    if |got| < want && !p.finished {
      var r := Call(d, p, want - |got|);
      CallOn(d, abs, script, bytes, p, out + got, want - |got|);
      if r.code.Hint? && (r.consumed != 0 || r.emitted != []) {
        assert (out + got) + r.emitted == out + (got + r.emitted);
        PartLoopOn(d, abs, script, bytes, After(p, r), out, got + r.emitted, want);
      }
    }
  }

  lemma PartOn<S(!new)>(d: Decoder<S>, abs: S -> Point, script: Script, bytes: seq<byte>,
                        p: Plug<S>, out: seq<byte>, want: nat)
    requires Follows(d, abs, script) && On(abs, script, bytes, p, out)
    ensures var r := Part(d, p, want);
            r.Ok? ==> On(abs, script, bytes, r.value.0, out + r.value.1)
  {
    assert out + [] == out;
    PartLoopOn(d, abs, script, bytes, p, out, [], want);
  }

  lemma Associates(a: seq<byte>, b: seq<byte>, c: seq<byte>)
    ensures (a + b) + c == a + (b + c)
  {
  }

  /** Any sequence of parts delivers consecutive output of one run. */
  lemma {:induction false} PartsOn<S(!new)>(d: Decoder<S>, abs: S -> Point, script: Script, bytes: seq<byte>,
                                            p: Plug<S>, out: seq<byte>, lengths: seq<nat>)
    requires Follows(d, abs, script) && On(abs, script, bytes, p, out)
    ensures var r := Parts(d, p, lengths);
            r.Ok? ==> On(abs, script, bytes, r.value.0, out + r.value.1)
    decreases lengths
  {
    if lengths == [] {
      assert out + [] == out;
    } else {
      var r := Part(d, p, lengths[0]);
      PartOn(d, abs, script, bytes, p, out, lengths[0]);
      if r.Ok? {
        var (q, part) := r.value;
        PartsOn(d, abs, script, bytes, q, out + part, lengths[1..]);
        var more := Parts(d, q, lengths[1..]);
        if more.Ok? {
          Associates(out, part, more.value.1);
        }
      }
    }
  }

  /** The parts are as long as asked for, and are counted. */
  lemma {:induction false} PartsCount<S(!new)>(d: Decoder<S>, p: Plug<S>, lengths: seq<nat>)
    requires Bounded(d) && p.InRange()
    ensures var r := Parts(d, p, lengths);
            r.Ok? ==> |r.value.1| == Sum(lengths) && r.value.0.remaining + Sum(lengths) == p.remaining
    decreases lengths
  {
    if lengths != [] {
      var r := Part(d, p, lengths[0]);
      if r.Ok? {
        PartsCount(d, r.value.0, lengths[1..]);
      }
    }
  }

  lemma {:induction false} CloseLoopOn<S(!new)>(d: Decoder<S>, abs: S -> Point, script: Script, bytes: seq<byte>,
                                                p: Plug<S>, out: seq<byte>)
    requires Follows(d, abs, script) && On(abs, script, bytes, p, out)
    ensures var r := CloseLoop(d, p);
            r.Ok? ==> r.value.finished && On(abs, script, bytes, r.value, out)
    decreases p.stop - p.pos + |p.input|, !p.finished
  {
    if !p.finished {
      var r := Call(d, p, 1);
      CallOn(d, abs, script, bytes, p, out, 1);
      if r.code.Hint? && r.emitted == [] && (r.code == Hint(0) || r.consumed != 0) {
        assert out + r.emitted == out;
        CloseLoopOn(d, abs, script, bytes, After(p, r), out);
      }
    }
  }

  // ----- on a frame of the stated size nothing fails

  lemma CallOnFrame<S(!new)>(d: Decoder<S>, abs: S -> Point, script: Script, bytes: seq<byte>, content: seq<byte>,
                             p: Plug<S>, out: seq<byte>, room: nat)
    requires Follows(d, abs, script) && Progresses(d, abs, script) && OneFrame(script, bytes, content)
    requires On(abs, script, bytes, p, out) && !p.finished && room > 0
    ensures var r := Call(d, p, room);
            && r.code.Hint?
            && (r.consumed > 0 || r.emitted != [] || r.code == Hint(0))
            && r.consumed <= |Refill(p).input|
            && On(abs, script, bytes, After(p, r), out + r.emitted)
            && out + r.emitted <= content
            && (r.code == Hint(0) ==> out + r.emitted == content && After(p, r).Unread() == [])
  {
    var r := Call(d, p, room);
    CallOn(d, abs, script, bytes, p, out, room);
    RefillConserves(p);
    if r.code.Error? {
      var t :| Reach(script, Start(bytes), t) && ActOf(script, t) == Fail(r.code.code) && t.frames == 0;
      SingleFrame.BeforeTheEnd(script, bytes, content, [], t);
    } else {
      var q := After(p, r);
      SingleFrame.BeforeTheEnd(script, bytes, content, [], At(abs(p.ctx), p.Unread(), out, 0));
      SingleFrame.BeforeTheEnd(script, bytes, content, [],
                               At(abs(q.ctx), q.Unread(), out + r.emitted, if q.finished then 1 else 0));
      assert CanMove(script, abs(p.ctx), Refill(p).input, room);
    }
  }

  lemma FinishedOnFrame<S(!new)>(abs: S -> Point, script: Script, bytes: seq<byte>, content: seq<byte>,
                                 p: Plug<S>, out: seq<byte>)
    requires OneFrame(script, bytes, content) && On(abs, script, bytes, p, out) && p.finished
    ensures out == content && p.Unread() == []
  {
    SingleFrame.BeforeTheEnd(script, bytes, content, [], At(abs(p.ctx), p.Unread(), out, 1));
  }

  lemma {:induction false} PartLoopOnFrame<S(!new)>(
      d: Decoder<S>, abs: S -> Point, script: Script, bytes: seq<byte>, content: seq<byte>,
      p: Plug<S>, out: seq<byte>, got: seq<byte>, want: nat)
    requires Follows(d, abs, script) && Progresses(d, abs, script) && OneFrame(script, bytes, content)
    requires On(abs, script, bytes, p, out + got) && |got| <= want && |out| + want <= |content|
    ensures PartLoop(d, p, got, want).Ok?
    decreases p.stop - p.pos + |p.input| + want - |got|
  {
    if |got| < want {
      if p.finished {
        FinishedOnFrame(abs, script, bytes, content, p, out + got);
      } else {
        var r := Call(d, p, want - |got|);
        CallOnFrame(d, abs, script, bytes, content, p, out + got, want - |got|);
        var q := After(p, r);
        assert (out + got) + r.emitted == out + (got + r.emitted);
        if r.consumed == 0 && r.emitted == [] {
          FinishedOnFrame(abs, script, bytes, content, q, out + got + r.emitted);
        } else {
          PartLoopOnFrame(d, abs, script, bytes, content, q, out, got + r.emitted, want);
        }
      }
    }
  }

  lemma {:induction false} PartsOnFrame<S(!new)>(
      d: Decoder<S>, abs: S -> Point, script: Script, bytes: seq<byte>, content: seq<byte>,
      p: Plug<S>, out: seq<byte>, lengths: seq<nat>)
    requires Follows(d, abs, script) && Progresses(d, abs, script) && OneFrame(script, bytes, content)
    requires On(abs, script, bytes, p, out)
    requires |out| + Sum(lengths) <= |content| && Sum(lengths) <= p.remaining
    ensures Parts(d, p, lengths).Ok?
    decreases lengths
  {
    if lengths != [] {
      assert out + [] == out;
      PartLoopOnFrame(d, abs, script, bytes, content, p, out, [], lengths[0]);
      PartLoopOn(d, abs, script, bytes, p, out, [], lengths[0]);
      var (q, part) := Part(d, p, lengths[0]).value;
      PartsOnFrame(d, abs, script, bytes, content, q, out + part, lengths[1..]);
    }
  }

  lemma {:induction false} CloseLoopOnFrame<S(!new)>(
      d: Decoder<S>, abs: S -> Point, script: Script, bytes: seq<byte>, content: seq<byte>, p: Plug<S>, out: seq<byte>)
    requires Follows(d, abs, script) && Progresses(d, abs, script) && OneFrame(script, bytes, content)
    requires On(abs, script, bytes, p, out) && |out| == |content|
    ensures CloseLoop(d, p).Ok? && CloseLoop(d, p).value.Unread() == []
    decreases p.stop - p.pos + |p.input|, !p.finished
  {
    if p.finished {
      FinishedOnFrame(abs, script, bytes, content, p, out);
    } else {
      var r := Call(d, p, 1);
      CallOnFrame(d, abs, script, bytes, content, p, out, 1);
      assert |out + r.emitted| <= |content|;
      assert out + r.emitted == out;
      CloseLoopOnFrame(d, abs, script, bytes, content, After(p, r), out);
    }
  }

  /**
   A session succeeds exactly when the range is one frame of the stated size and the parts add up
   to it; the parts then join to the content of the frame.  Neither how the output is cut into
   parts nor where the refill buffer ends makes a difference.
   */
  lemma SessionIsExact<S(!new)>(d: Decoder<S>, abs: S -> Point, script: Script,
                                source: seq<byte>, size: nat, b: nat, e: nat, lengths: seq<nat>)
    requires Follows(d, abs, script)
    ensures var r := Session(d, source, size, b, e, lengths);
            && (r.Ok? ==>
                  && b <= e <= |source| && size <= PAYLOAD_MAX
                  && Sum(lengths) == size == |r.value| && OneFrame(script, source[b..e], r.value))
            && (Progresses(d, abs, script) && b <= e <= |source| && size <= PAYLOAD_MAX
                && Sum(lengths) == size && DecodesTo(script, source[b..e], size) ==>
                  r.Ok?)
            && (!(b <= e <= |source| && size <= PAYLOAD_MAX) ==> r == Err(Invalid))
  {
    var start := Open(d, source, size, b, e);
    if start.Ok? {
      var p, bytes := start.value, source[b..e];
      assert p.Unread() == bytes;
      ReachSelf(script, Start(bytes));
      assert On(abs, script, bytes, p, []);
      PartsOn(d, abs, script, bytes, p, [], lengths);
      PartsCount(d, p, lengths);
      var parts := Parts(d, p, lengths);
      if parts.Ok? {
        var (q, out) := parts.value;
        assert [] + out == out;
        CloseLoopOn(d, abs, script, bytes, q, out);
        if Close(d, q) == Ok(true) {
          var t := CloseLoop(d, q).value;
          assert t.Unread() == [];
          assert At(ORIGIN, [], out, 1) == Machine([], 0, [], out, 1);
        }
      }
      if Progresses(d, abs, script) && Sum(lengths) == size && DecodesTo(script, bytes, size) {
        var content :| |content| == size && OneFrame(script, bytes, content);
        PartsOnFrame(d, abs, script, bytes, content, p, [], lengths);
        var (q, out) := parts.value;
        CloseLoopOnFrame(d, abs, script, bytes, content, q, out);
        var t := CloseLoop(d, q).value;
        assert t.input == [] && t.source[t.pos..t.stop] == [];
      }
    }
  }

  /** With parts that add up to the size, a session returns a content exactly when the range is its frame. */
  lemma SessionReturns<S(!new)>(d: Decoder<S>, abs: S -> Point, script: Script,
                                source: seq<byte>, size: nat, b: nat, e: nat, lengths: seq<nat>, content: seq<byte>)
    requires Follows(d, abs, script) && Progresses(d, abs, script)
    requires b <= e <= |source| && size <= PAYLOAD_MAX && Sum(lengths) == size
    ensures Session(d, source, size, b, e, lengths) == Ok(content)
            <==> |content| == size && OneFrame(script, source[b..e], content)
  {
    SessionIsExact(d, abs, script, source, size, b, e, lengths);
    if |content| == size && OneFrame(script, source[b..e], content) {
      assert DecodesTo(script, source[b..e], size);
      OneFrameUnique(script, source[b..e], content, Session(d, source, size, b, e, lengths).value);
    }
  }

  /** Whatever the slicing and whatever the library does per call, two sessions deliver the same bytes. */
  lemma SessionsAgree<S(!new), T(!new)>(
      d: Decoder<S>, abs: S -> Point, d': Decoder<T>, abs': T -> Point, script: Script,
      source: seq<byte>, size: nat, b: nat, e: nat, lengths: seq<nat>, lengths': seq<nat>, content: seq<byte>)
    requires Follows(d, abs, script) && Progresses(d, abs, script)
    requires Follows(d', abs', script) && Progresses(d', abs', script)
    requires Sum(lengths) == Sum(lengths')
    ensures Session(d, source, size, b, e, lengths) == Ok(content)
            <==> Session(d', source, size, b, e, lengths') == Ok(content)
  {
    SessionIsExact(d, abs, script, source, size, b, e, lengths);
    SessionIsExact(d', abs', script, source, size, b, e, lengths');
    var r, r' := Session(d, source, size, b, e, lengths), Session(d', source, size, b, e, lengths');
    if r.Ok? && r'.Ok? {
      OneFrameUnique(script, source[b..e], r.value, r'.value);
    }
  }

  // ----- on a range that gets stuck in its frame

  /** Inside a frame that gets stuck, a call fails with its fault, or moves closer to it. */
  lemma CallWhenStuck<S(!new)>(d: Decoder<S>, abs: S -> Point, script: Script, bytes: seq<byte>, t: Machine,
                               p: Plug<S>, out: seq<byte>, room: nat)
    requires Follows(d, abs, script) && Progresses(d, abs, script) && SingleFrame.StuckAt(script, bytes, t)
    requires On(abs, script, bytes, p, out) && room > 0
    ensures var r := Call(d, p, room);
            && !p.finished
            && (r.code.Error? ==> ZStatus(r.code.code) == SingleFrame.Fault(script, t))
            && (r.code.Hint? ==>
                  && r.consumed <= |Refill(p).input|
                  && On(abs, script, bytes, After(p, r), out + r.emitted) && |out + r.emitted| <= |t.out|
                  && r.code != Hint(0)
                  && (r.consumed == 0 && r.emitted == [] ==> SingleFrame.Fault(script, t) == Invalid))
  {
    var r := Call(d, p, room);
    var m := At(abs(p.ctx), p.Unread(), out, if p.finished then 1 else 0);
    SingleFrame.BeforeTheFault(script, bytes, t, m);
    CallOn(d, abs, script, bytes, p, out, room);
    RefillConserves(p);
    if r.code.Error? {
      var u :| Reach(script, Start(bytes), u) && ActOf(script, u) == Fail(r.code.code) && u.frames == 0;
      SingleFrame.BeforeTheFault(script, bytes, t, u);
    } else {
      var q := After(p, r);
      SingleFrame.BeforeTheFault(script, bytes, t,
                                 At(abs(q.ctx), q.Unread(), out + r.emitted, if q.finished then 1 else 0));
      if r.consumed == 0 && r.emitted == [] {
        assert !CanMove(script, abs(p.ctx), Refill(p).input, room);
        assert !CanStep(script, m);
      }
    }
  }

  lemma {:induction false} PartLoopWhenStuck<S(!new)>(
      d: Decoder<S>, abs: S -> Point, script: Script, bytes: seq<byte>, t: Machine,
      p: Plug<S>, out: seq<byte>, got: seq<byte>, want: nat)
    requires Follows(d, abs, script) && Progresses(d, abs, script) && SingleFrame.StuckAt(script, bytes, t)
    requires On(abs, script, bytes, p, out + got) && |got| <= want
    ensures var r := PartLoop(d, p, got, want); r.Err? ==> r.status == SingleFrame.Fault(script, t)
    decreases p.stop - p.pos + |p.input| + want - |got|
  {
    if |got| < want {
      var r := Call(d, p, want - |got|);
      CallWhenStuck(d, abs, script, bytes, t, p, out + got, want - |got|);
      if r.code.Hint? && (r.consumed != 0 || r.emitted != []) {
        Associates(out, got, r.emitted);
        PartLoopWhenStuck(d, abs, script, bytes, t, After(p, r), out, got + r.emitted, want);
      }
    }
  }

  lemma {:induction false} PartsWhenStuck<S(!new)>(
      d: Decoder<S>, abs: S -> Point, script: Script, bytes: seq<byte>, t: Machine,
      p: Plug<S>, out: seq<byte>, lengths: seq<nat>)
    requires Follows(d, abs, script) && Progresses(d, abs, script) && SingleFrame.StuckAt(script, bytes, t)
    requires On(abs, script, bytes, p, out) && Sum(lengths) <= p.remaining
    ensures var r := Parts(d, p, lengths); r.Err? ==> r.status == SingleFrame.Fault(script, t)
    decreases lengths
  {
    if lengths != [] {
      assert out + [] == out;
      PartLoopWhenStuck(d, abs, script, bytes, t, p, out, [], lengths[0]);
      var r := Part(d, p, lengths[0]);
      if r.Ok? {
        PartOn(d, abs, script, bytes, p, out, lengths[0]);
        PartsWhenStuck(d, abs, script, bytes, t, r.value.0, out + r.value.1, lengths[1..]);
      }
    }
  }

  lemma {:induction false} CloseLoopWhenStuck<S(!new)>(
      d: Decoder<S>, abs: S -> Point, script: Script, bytes: seq<byte>, t: Machine, p: Plug<S>, out: seq<byte>)
    requires Follows(d, abs, script) && Progresses(d, abs, script) && SingleFrame.StuckAt(script, bytes, t)
    requires On(abs, script, bytes, p, out) && |t.out| <= |out|
    ensures CloseLoop(d, p) == Err(SingleFrame.Fault(script, t))
    decreases p.stop - p.pos + |p.input|, !p.finished
  {
    var r := Call(d, p, 1);
    CallWhenStuck(d, abs, script, bytes, t, p, out, 1);
    if r.code.Hint? {
      assert |out + r.emitted| <= |out|;
      assert r.emitted == [] && out + r.emitted == out;
      if r.consumed != 0 {
        CloseLoopWhenStuck(d, abs, script, bytes, t, After(p, r), out);
      }
    }
  }

  /**
   A range whose frame gets stuck within the stated size fails with the status of that fault, whatever
   the slicing and whatever the library does per call.
   */
  lemma SessionReportsFault<S(!new)>(d: Decoder<S>, abs: S -> Point, script: Script,
                                     source: seq<byte>, size: nat, b: nat, e: nat, lengths: seq<nat>, t: Machine)
    requires Follows(d, abs, script) && Progresses(d, abs, script)
    requires b <= e <= |source| && size <= PAYLOAD_MAX && Sum(lengths) == size
    requires SingleFrame.StuckAt(script, source[b..e], t) && |t.out| <= size
    ensures Session(d, source, size, b, e, lengths) == Err(SingleFrame.Fault(script, t))
  {
    var p, bytes := Open(d, source, size, b, e).value, source[b..e];
    assert p.Unread() == bytes;
    ReachSelf(script, Start(bytes));
    PartsWhenStuck(d, abs, script, bytes, t, p, [], lengths);
    var r := Parts(d, p, lengths);
    if r.Ok? {
      var (q, out) := r.value;
      PartsOn(d, abs, script, bytes, p, [], lengths);
      PartsCount(d, p, lengths);
      assert [] + out == out;
      CloseLoopWhenStuck(d, abs, script, bytes, t, q, out);
    }
  }

  // ----- on a range that begins with a frame

  lemma CallOnHead<S(!new)>(d: Decoder<S>, abs: S -> Point, script: Script, bytes: seq<byte>,
                            content: seq<byte>, rest: seq<byte>, p: Plug<S>, out: seq<byte>, room: nat)
    requires Follows(d, abs, script) && SingleFrame.Leads(script, bytes, content, rest)
    requires On(abs, script, bytes, p, out) && !p.finished
    ensures var r := Call(d, p, room);
            && r.code.Hint? && r.consumed <= |Refill(p).input|
            && On(abs, script, bytes, After(p, r), out + r.emitted)
  {
    var r := Call(d, p, room);
    CallOn(d, abs, script, bytes, p, out, room);
    if r.code.Error? {
      var t :| Reach(script, Start(bytes), t) && ActOf(script, t) == Fail(r.code.code) && t.frames == 0;
      SingleFrame.BeforeTheEnd(script, bytes, content, rest, t);
    }
  }

  lemma {:induction false} PartLoopOnHead<S(!new)>(
      d: Decoder<S>, abs: S -> Point, script: Script, bytes: seq<byte>, content: seq<byte>, rest: seq<byte>,
      p: Plug<S>, out: seq<byte>, got: seq<byte>, want: nat)
    requires Follows(d, abs, script) && SingleFrame.Leads(script, bytes, content, rest)
    requires On(abs, script, bytes, p, out + got) && |got| <= want
    ensures var r := PartLoop(d, p, got, want); r.Err? ==> r.status == Invalid
    decreases p.stop - p.pos + |p.input| + want - |got|
  {
    if |got| < want && !p.finished {
      var r := Call(d, p, want - |got|);
      CallOnHead(d, abs, script, bytes, content, rest, p, out + got, want - |got|);
      if r.consumed != 0 || r.emitted != [] {
        Associates(out, got, r.emitted);
        PartLoopOnHead(d, abs, script, bytes, content, rest, After(p, r), out, got + r.emitted, want);
      }
    }
  }

  lemma {:induction false} PartsOnHead<S(!new)>(
      d: Decoder<S>, abs: S -> Point, script: Script, bytes: seq<byte>, content: seq<byte>, rest: seq<byte>,
      p: Plug<S>, out: seq<byte>, lengths: seq<nat>)
    requires Follows(d, abs, script) && SingleFrame.Leads(script, bytes, content, rest)
    requires On(abs, script, bytes, p, out)
    ensures var r := Parts(d, p, lengths); r.Err? ==> r.status == Invalid
    decreases lengths
  {
    if lengths != [] {
      assert out + [] == out;
      PartLoopOnHead(d, abs, script, bytes, content, rest, p, out, [], lengths[0]);
      var r := Part(d, p, lengths[0]);
      if r.Ok? {
        PartOn(d, abs, script, bytes, p, out, lengths[0]);
        PartsOnHead(d, abs, script, bytes, content, rest, r.value.0, out + r.value.1, lengths[1..]);
      }
    }
  }

  lemma {:induction false} CloseLoopOnHead<S(!new)>(
      d: Decoder<S>, abs: S -> Point, script: Script, bytes: seq<byte>, content: seq<byte>, rest: seq<byte>,
      p: Plug<S>, out: seq<byte>)
    requires Follows(d, abs, script) && SingleFrame.Leads(script, bytes, content, rest)
    requires On(abs, script, bytes, p, out)
    ensures var r := CloseLoop(d, p); r.Err? ==> r.status == Invalid
    decreases p.stop - p.pos + |p.input|, !p.finished
  {
    if !p.finished {
      var r := Call(d, p, 1);
      CallOnHead(d, abs, script, bytes, content, rest, p, out, 1);
      if r.emitted == [] && (r.code == Hint(0) || r.consumed != 0) {
        assert out + r.emitted == out;
        CloseLoopOnHead(d, abs, script, bytes, content, rest, After(p, r), out);
      }
    }
  }

  /**
   On a range that begins with a complete frame a session delivers the content, if that is all of the
   range and of the stated size and the parts add up to it, and is invalid otherwise.
   */
  lemma SessionOnHead<S(!new)>(d: Decoder<S>, abs: S -> Point, script: Script,
                               source: seq<byte>, size: nat, b: nat, e: nat, lengths: seq<nat>,
                               content: seq<byte>, rest: seq<byte>)
    requires Follows(d, abs, script) && Progresses(d, abs, script)
    requires b <= e <= |source| && SingleFrame.Leads(script, source[b..e], content, rest)
    ensures Session(d, source, size, b, e, lengths)
            == if size <= PAYLOAD_MAX && rest == [] && |content| == size == Sum(lengths) then Ok(content)
               else Err(Invalid)
  {
    var bytes := source[b..e];
    var r := Session(d, source, size, b, e, lengths);
    SessionIsExact(d, abs, script, source, size, b, e, lengths);
    if size <= PAYLOAD_MAX {
      SessionIsInvalid(d, abs, script, source, size, b, e, lengths, content, rest);
    }
    if r.Ok? {
      SingleFrame.BeforeTheEnd(script, bytes, content, rest, Machine([], 0, [], r.value, 1));
    }
    if rest == [] && |content| == size {
      assert OneFrame(script, bytes, content);
      assert DecodesTo(script, bytes, size);
    }
  }

  lemma SessionIsInvalid<S(!new)>(d: Decoder<S>, abs: S -> Point, script: Script,
                                  source: seq<byte>, size: nat, b: nat, e: nat, lengths: seq<nat>,
                                  content: seq<byte>, rest: seq<byte>)
    requires Follows(d, abs, script) && b <= e <= |source| && size <= PAYLOAD_MAX
    requires SingleFrame.Leads(script, source[b..e], content, rest)
    ensures var r := Session(d, source, size, b, e, lengths); r.Err? ==> r.status == Invalid
  {
    var p, bytes := Open(d, source, size, b, e).value, source[b..e];
    assert p.Unread() == bytes;
    ReachSelf(script, Start(bytes));
    PartsOnHead(d, abs, script, bytes, content, rest, p, [], lengths);
    var parts := Parts(d, p, lengths);
    if parts.Ok? {
      PartsOn(d, abs, script, bytes, p, [], lengths);
      assert [] + parts.value.1 == parts.value.1;
      CloseLoopOnHead(d, abs, script, bytes, content, rest, parts.value.0, parts.value.1);
    }
  }

  // ----- the plugin as an object

  class Decompress<S(!new)> {
    const heap: Heap
    const d: Decoder<S>
    const buffer: array<byte>
    var block: array?<Cell>    // the memory of the zstd context
    var ctx: S
    var source: seq<byte>
    var pos: nat
    var stop: nat
    var remaining: nat
    var inPos: nat
    var inSize: nat
    var finished: bool

    ghost predicate Valid()
      reads this, heap
    {
      && Bounded(d)
      && buffer.Length == CHUNK
      && inPos <= inSize <= CHUNK
      && pos <= stop <= |source|
      && (block != null ==> block in heap.live)
    }

    ghost function Block(): set<array<Cell>>
      reads this
    {
      if block == null then {} else {block}
    }

    ghost function View(): (p: Plug<S>)
      requires Valid()
      reads this, heap, buffer
      ensures p.InRange()
    {
      Plug(ctx, source, pos, stop, remaining, buffer[inPos..inSize], finished)
    }

    /** `prepare` configures a decoder with a window limit. */
    constructor (heap: Heap, prepare: nat -> Decoder<S>)
      requires Bounded(prepare(HDIFF_WINDOW_LOG_MAX))
      ensures Valid() && this.heap == heap && d == prepare(HDIFF_WINDOW_LOG_MAX) && block == null && fresh(buffer)
    {
      this.heap, d := heap, prepare(HDIFF_WINDOW_LOG_MAX);
      buffer := new byte[CHUNK](_ => 0);
      block, ctx := null, prepare(HDIFF_WINDOW_LOG_MAX).init;
      source, pos, stop, remaining := [], 0, 0, 0;
      inPos, inSize, finished := 0, 0, false;
    }

    /** A new context; the one before it is freed, also when there is none to replace it. */
    method Renew() returns (ok: bool)
      requires Valid()
      modifies this`block, heap
      ensures Valid() && (!ok ==> heap.Denied())
      ensures heap.live == old(heap.live) - old(Block()) + Block() && (block == old(block) || fresh(Block()))
    {
      var created := heap.Realloc(null, 1);
      if block != null {
        heap.Free(block);
      }
      block := created;
      return block != null;
    }

    /** open: a new context replaces the one of an earlier use. */
    method OpenStream(s: seq<byte>, size: nat, b: nat, e: nat) returns (r: Result<()>)
      requires Valid()
      modifies this, heap
      ensures Valid()
      ensures heap.live == old(heap.live) - old(Block()) + Block() && (block == old(block) || fresh(Block()))
      ensures match Open(d, s, size, b, e)
              case Err(status) => r == Err(status)
              case Ok(p) => (r == Ok(()) && View() == p) || (r == Err(Alloc) && heap.Denied())
    {
      if !(b <= e && e <= |s| && size <= PAYLOAD_MAX) {
        return Err(Invalid);
      }
      var ok := Renew();
      if !ok {
        return Err(Alloc);
      }
      ctx, source := d.init, s;
      pos, stop, remaining := b, e, size;
      inPos, inSize, finished := 0, 0, false;
      return Ok(());
    }

    /** Input that the decoder has not read: still in the source, or in the buffer. */
    ghost function Left(): nat
      requires Valid()
      reads this, heap
    {
      stop - pos + inSize - inPos
    }

    method RefillBuffer()
      requires Valid()
      modifies this`pos, this`inPos, this`inSize, buffer
      ensures Valid() && View() == Refill(old(View())) && Left() == old(Left())
    {
      if inPos != inSize || pos == stop {
        return;
      }
      var n := Min(CHUNK, stop - pos);
      var bytes := ReadAt(source, pos, n);
      forall i | 0 <= i < n {
        buffer[i] := bytes.get[i];
      }
      assert buffer[..n] == bytes.get;
      pos, inPos, inSize := pos + n, 0, n;
    }

    /** One refill and one call; the context moves on only if there was no error. */
    method CallDecoder(room: nat) returns (r: Reply<S>)
      requires Valid()
      modifies this`pos, this`inPos, this`inSize, this`ctx, this`finished, buffer
      ensures Valid() && r == Call(d, old(View()), room)
      ensures r.consumed <= |Refill(old(View())).input|
      ensures r.code.Hint? ==> View() == After(old(View()), r)
      ensures |r.emitted| <= room && finished == (if r.code.Hint? then r.code == Hint(0) else old(finished))
      ensures Left() == old(Left()) - (if r.code.Hint? then r.consumed else 0)
    {
      RefillBuffer();
      r := d.step(ctx, buffer[inPos..inSize], room);
      if r.code.Hint? {
        ctx, inPos, finished := r.state, inPos + r.consumed, r.code == Hint(0);
      }
    }

    /** One turn of decompress_part, which has `got` of `want` bytes at `b`; returns how many it adds. */
    method PartTurn(dst: array<Cell>, ghost before: seq<Cell>, b: nat, ghost got: seq<byte>, done: nat, want: nat)
        returns (r: Result<nat>, ghost more: seq<byte>)
      requires Valid() && !finished && done == |got| < want
      requires b + want <= dst.Length && |before| == dst.Length && dst[..] == Patch(before, b, got)
      modifies this`pos, this`inPos, this`inSize, this`ctx, this`finished, buffer, dst
      ensures Valid() && got <= more && |more| <= want
      ensures r.Err? ==> PartLoop(d, old(View()), got, want) == Err(r.status)
      ensures r.Ok? ==>
                && r.value == |more| - |got|
                && dst[..] == Patch(before, b, more)
                && PartLoop(d, old(View()), got, want) == PartLoop(d, View(), more, want)
                && Left() + want - |more| < old(Left()) + want - |got|
    {
      more := got;
      var a := CallDecoder(want - done);
      if a.code.Error? {
        return Err(ZStatus(a.code.code)), more;
      }
      Copy(dst, b + done, a.emitted);
      if a.consumed == 0 && a.emitted == [] {
        return Err(Invalid), more;
      }
      PatchesCompose(before, b, got, a.emitted);
      return Ok(|a.emitted|), got + a.emitted;
    }

    /** The loop of decompress_part. */
    method FillPart(dst: array<Cell>, b: nat, want: nat) returns (r: Result<()>)
      requires Valid() && b + want <= dst.Length
      modifies this`pos, this`inPos, this`inSize, this`ctx, this`finished, buffer, dst
      ensures Valid()
      ensures match PartLoop(d, old(View()), [], want)
              case Err(status) => r == Err(status)
              case Ok((q, bytes)) => r == Ok(()) && View() == q && dst[..] == Patch(old(dst[..]), b, bytes)
    {
      var done: nat := 0;
      ghost var got: seq<byte> := [];
      ghost var goal := PartLoop(d, View(), [], want);
      ghost var before := dst[..];
      while done < want
        invariant Valid() && done == |got| <= want
        invariant dst[..] == Patch(before, b, got)
        invariant PartLoop(d, View(), got, want) == goal
        decreases Left() + want - done
      {
        if finished {
          return Err(Invalid);
        }
        var n, more := PartTurn(dst, before, b, got, done, want);
        if n.Err? {
          return Err(n.status);
        }
        done, got := done + n.value, more;
      }
      return Ok(());
    }

    /** decompress_part: writes the next e - b bytes over dst[b..e). */
    method DecompressPart(dst: array<Cell>, b: nat, e: nat) returns (r: Result<()>)
      requires Valid() && b <= e <= dst.Length
      modifies this`pos, this`inPos, this`inSize, this`ctx, this`finished, this`remaining, buffer, dst
      ensures Valid()
      ensures match Part(d, old(View()), e - b)
              case Err(status) => r == Err(status)
              case Ok((q, bytes)) => r == Ok(()) && View() == q && dst[..] == Patch(old(dst[..]), b, bytes)
    {
      if e - b > remaining {
        return Err(Invalid);
      }
      ghost var goal := PartLoop(d, View(), [], e - b);
      r := FillPart(dst, b, e - b);
      if r.Ok? {
        ghost var filled := View();
        assert goal.Ok? && filled == goal.value.0;
        remaining := remaining - (e - b);
        assert View() == filled.(remaining := remaining);
      }
    }

    /** close: consumes the rest of the frame, and reports whether the range ends with it. */
    method CloseStream() returns (r: Result<bool>)
      requires Valid()
      modifies this`pos, this`inPos, this`inSize, this`ctx, this`finished, buffer
      ensures Valid() && r == Close(d, old(View()))
    {
      if remaining != 0 {
        return Ok(false);
      }
      ghost var goal := CloseLoop(d, View());
      while !finished
        invariant Valid() && CloseLoop(d, View()) == goal
        decreases Left(), !finished
      {
        var a := CallDecoder(1);
        if a.code.Error? {
          return Err(ZStatus(a.code.code));
        }
        if a.emitted != [] {
          return Err(Invalid);
        }
        if !finished && a.consumed == 0 {
          return Err(Invalid);
        }
      }
      return Ok(pos == stop && inPos == inSize);
    }

    method Destroy()
      requires Valid()
      modifies this`block, heap
      ensures Valid() && block == null
      ensures heap.live == old(heap.live) - old(Block()) && heap.Denied() == old(heap.Denied())
    {
      if block != null {
        heap.Free(block);
      }
      block := null;
    }
  }
}
