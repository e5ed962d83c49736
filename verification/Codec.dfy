/**
 The contracts of the streaming zstd contexts that the bridge drives.

 A context is any state machine that answers calls; nothing is said about how many micro-steps
 one call performs.  Every choice of the library, at every call, is some step function here.
 */
module Codec {
  import opened Basics
  import opened Script

  /** A zstd return value: an error, or a hint that is 0 when a frame is complete. */
  datatype Code = Hint(more: nat) | Error(code: nat)

  datatype Reply<+S> = Reply(state: S, consumed: nat, emitted: seq<byte>, code: Code)

  /** ZSTD_DCtx: `step` is ZSTD_decompressStream on a state, the unread input and the room for output. */
  datatype Decoder<!S> = Decoder(init: S, step: (S, seq<byte>, nat) -> Reply<S>)

  /** Where in a frame a decoder is. */
  datatype Point = Point(read: seq<byte>, emitted: nat)

  const ORIGIN := Point([], 0)

  function At(p: Point, unread: seq<byte>, out: seq<byte>, frames: nat): Machine {
    Machine(p.read, p.emitted, unread, out, frames)
  }

  /** All that safety and termination need: a call stays inside the two buffers. */
  ghost predicate Bounded<S(!new)>(d: Decoder<S>) {
    forall s, input, room: nat ::
      && d.step(s, input, room).consumed <= |input|
      && |d.step(s, input, room).emitted| <= room
  }

  function Ended(code: Code): nat {
    if code == Hint(0) then 1 else 0
  }

  /** One call performs some micro-steps of the script, at most to the end of a frame. */
  ghost predicate Answers<S>(script: Script, p: Point, input: seq<byte>, room: nat, r: Reply<S>, next: Point) {
    match r.code
    case Error(code) =>
      exists t ::
        && Reach(script, At(p, input, [], 0), t)
        && ActOf(script, t) == Fail(code)
        && |t.out| <= room && t.frames == 0
    case Hint(more) =>
      && r.consumed <= |input|
      && |r.emitted| <= room
      && Reach(script, At(p, input, [], 0), At(next, input[r.consumed..], r.emitted, Ended(r.code)))
      && (more == 0 ==> next == ORIGIN)
  }

  /** The decoder is an implementation of the script; `abs` says where each state is. */
  ghost predicate Follows<S(!new)>(d: Decoder<S>, abs: S -> Point, script: Script) {
    && Bounded(d)
    && abs(d.init) == ORIGIN
    && forall s, input, room: nat ::
         Answers(script, abs(s), input, room, d.step(s, input, room), abs(d.step(s, input, room).state))
  }

  predicate CanMove(script: Script, p: Point, input: seq<byte>, room: nat) {
    match script(p.read, p.emitted)
    case Read => input != []
    case Emit(_) => room > 0
    case End => true
    case Fail(_) => true
  }

  predicate Moved<S>(r: Reply<S>) {
    r.code.Error? || r.consumed > 0 || r.emitted != [] || r.code == Hint(0)
  }

  /** A call that can do something does something. */
  ghost predicate Progresses<S(!new)>(d: Decoder<S>, abs: S -> Point, script: Script) {
    forall s, input, room: nat :: CanMove(script, abs(s), input, room) ==> Moved(d.step(s, input, room))
  }

  /** Completing a frame needs no buffer, so a prompt decoder never leaves it for the next call. */
  ghost predicate Prompt<S(!new)>(d: Decoder<S>, abs: S -> Point, script: Script) {
    forall s, input, room: nat ::
      var r := d.step(s, input, room);
      r.code.Hint? && r.code.more != 0 ==>
        script(abs(r.state).read, abs(r.state).emitted) != End
  }

  /** Where the run of the script on `src` is after reading `pos` bytes, emitting `out` and ending `frames` frames. */
  ghost predicate Along(script: Script, src: seq<byte>, p: Point, pos: nat, out: seq<byte>, frames: nat) {
    pos <= |src| && Reach(script, Start(src), At(p, src[pos..], out, frames))
  }

  /** A call on a slice moves the run on the whole. */
  lemma CallAdvances<S(!new)>(d: Decoder<S>, abs: S -> Point, script: Script, s: S,
                              input: seq<byte>, rest: seq<byte>, room: nat, out: seq<byte>, frames: nat)
    requires Follows(d, abs, script)
    ensures var r := d.step(s, input, room);
            var m := At(abs(s), input + rest, out, frames);
            match r.code
            case Error(code) =>
              exists t ::
                && Reach(script, m, t)
                && ActOf(script, t) == Fail(code)
                && |t.out| <= |out| + room && t.frames == frames
            case Hint(more) =>
              && r.consumed <= |input|
              && Reach(script, m,
                   At(abs(r.state), (input + rest)[r.consumed..], out + r.emitted, frames + Ended(r.code)))
              && (more == 0 ==> abs(r.state) == ORIGIN)
  {
    var r := d.step(s, input, room);
    var m := At(abs(s), input + rest, out, frames);
    var small := At(abs(s), input, [], 0);
    assert Answers(script, abs(s), input, room, r, abs(r.state));
    assert small.Within(out, frames, rest) == m by {
      assert out + [] == out;
    }
    match r.code
    case Error(code) =>
      var t :| Reach(script, small, t) && ActOf(script, t) == Fail(code)
               && |t.out| <= room && t.frames == 0;
      ReachWithin(script, small, t, out, frames, rest);
      assert ActOf(script, t.Within(out, frames, rest)) == Fail(code);
    case Hint(more) =>
      var t := At(abs(r.state), input[r.consumed..], r.emitted, Ended(r.code));
      ReachWithin(script, small, t, out, frames, rest);
      assert input[r.consumed..] + rest == (input + rest)[r.consumed..];
  }

  /** A call that neither reads, nor emits, nor completes a frame has not moved. */
  lemma CallIdle<S(!new)>(d: Decoder<S>, abs: S -> Point, script: Script, s: S, input: seq<byte>, room: nat)
    requires Follows(d, abs, script)
    requires !Moved(d.step(s, input, room))
    ensures abs(d.step(s, input, room).state) == abs(s)
  {
    var r := d.step(s, input, room);
    assert Answers(script, abs(s), input, room, r, abs(r.state));
    var small := At(abs(s), input, [], 0);
    var t := At(abs(r.state), input, [], 0);
    assert input[0..] == input;
    IdleRun(script, small, t);
  }

  lemma {:induction false} IdleRun(script: Script, m: Machine, t: Machine)
    requires Reach(script, m, t)
    requires t.unread == m.unread && t.out == m.out && t.frames == m.frames
    ensures t == m
  {
    var n: nat :| Run(script, m, n) == t;
    if n > 0 && CanStep(script, m) {
      RunGrows(script, Step(script, m), n - 1);
    }
  }

  /** Where the script wants a byte that is not there, or has one and no room, no call can do anything. */
  lemma StuckIsIdle<S(!new)>(d: Decoder<S>, abs: S -> Point, script: Script, s: S, input: seq<byte>, room: nat)
    requires Follows(d, abs, script)
    requires !CanMove(script, abs(s), input, room)
    ensures !Moved(d.step(s, input, room))
  {
    var r := d.step(s, input, room);
    assert Answers(script, abs(s), input, room, r, abs(r.state));
    var m := At(abs(s), input, [], 0);
    forall t | Reach(script, m, t) && |t.out| <= room ensures t == m {
      var n: nat :| Run(script, m, n) == t;
      if n > 0 && CanStep(script, m) {
        RunGrows(script, Step(script, m), n - 1);
      }
    }
  }

  /** The state after so many calls with the same buffers. */
  function Retried<S>(d: Decoder<S>, s: S, input: seq<byte>, room: nat, n: nat): S {
    if n == 0 then s else d.step(Retried(d, s, input, room, n - 1), input, room).state
  }

  /**
   A progressing decoder does something exactly when its script can; and if it did nothing, it does
   nothing however often it is called again.  So a loop that goes on without progress never ends.
   */
  lemma {:induction false} RetryingIsIdle<S(!new)>(d: Decoder<S>, abs: S -> Point, script: Script, s: S,
                                                   input: seq<byte>, room: nat, n: nat)
    requires Follows(d, abs, script) && Progresses(d, abs, script)
    ensures Moved(d.step(s, input, room)) <==> CanMove(script, abs(s), input, room)
    ensures !Moved(d.step(s, input, room)) ==>
              var t := Retried(d, s, input, room, n);
              abs(t) == abs(s) && !Moved(d.step(t, input, room))
  {
    if !CanMove(script, abs(s), input, room) {
      StuckIsIdle(d, abs, script, s, input, room);
    }
    if n > 0 && !Moved(d.step(s, input, room)) {
      RetryingIsIdle(d, abs, script, s, input, room, n - 1);
      var t := Retried(d, s, input, room, n - 1);
      CallIdle(d, abs, script, t, input, room);
      StuckIsIdle(d, abs, script, d.step(t, input, room).state, input, room);
    }
  }

  // ----- decoders that meet the contracts exist, for every script

  /** Does all it can in each call. */
  function Greedy(script: Script, p: Point, input: seq<byte>, room: nat): Reply<Point>
    decreases |input| + room
  {
    match script(p.read, p.emitted)
    case Read =>
      if input == [] then Reply(p, 0, [], Hint(1))
      else
        var r := Greedy(script, Point(p.read + [input[0]], p.emitted), input[1..], room);
        r.(consumed := r.consumed + 1)
    case Emit(b) =>
      if room == 0 then Reply(p, 0, [], Hint(1))
      else
        var r := Greedy(script, Point(p.read, p.emitted + 1), input, room - 1);
        r.(emitted := [b] + r.emitted)
    case End => Reply(ORIGIN, 0, [], Hint(0))
    case Fail(code) => Reply(p, 0, [], Error(code))
  }

  /** Does one micro-step in each call, the end of a frame included. */
  function Lazy(script: Script, p: Point, input: seq<byte>, room: nat): Reply<Point> {
    match script(p.read, p.emitted)
    case Read =>
      if input == [] then Reply(p, 0, [], Hint(1))
      else Reply(Point(p.read + [input[0]], p.emitted), 1, [], Hint(1))
    case Emit(b) =>
      if room == 0 then Reply(p, 0, [], Hint(1))
      else Reply(Point(p.read, p.emitted + 1), 0, [b], Hint(1))
    case End => Reply(ORIGIN, 0, [], Hint(0))
    case Fail(code) => Reply(p, 0, [], Error(code))
  }

  function GreedyDecoder(script: Script): Decoder<Point> {
    Decoder(ORIGIN, (p, input, room) => Greedy(script, p, input, room))
  }

  function LazyDecoder(script: Script): Decoder<Point> {
    Decoder(ORIGIN, (p, input, room) => Lazy(script, p, input, room))
  }

  lemma {:induction false} GreedyAnswers(script: Script, p: Point, input: seq<byte>, room: nat)
    ensures var r := Greedy(script, p, input, room);
            && Answers(script, p, input, room, r, r.state)
            && r.consumed <= |input| && |r.emitted| <= room
            && (CanMove(script, p, input, room) ==> Moved(r))
            && (r.code.Hint? && r.code.more != 0 ==>
                  !CanMove(script, r.state, input[r.consumed..], room - |r.emitted|))
    decreases |input| + room
  {
    var r := Greedy(script, p, input, room);
    var m := At(p, input, [], 0);
    match script(p.read, p.emitted)
    case Fail(code) =>
      ReachSelf(script, m);
    case End =>
      ReachStep(script, m);
      assert input[0..] == input;
    case Read =>
      if input == [] {
        ReachSelf(script, m);
        assert input[0..] == input;
      } else {
        var q := Point(p.read + [input[0]], p.emitted);
        GreedyAnswers(script, q, input[1..], room);
        var g := Greedy(script, q, input[1..], room);
        ReachStep(script, m);
        assert Step(script, m) == At(q, input[1..], [], 0);
        StepThen(script, m, q, input[1..], [], g, input, room, room, r);
      }
    case Emit(b) =>
      if room == 0 {
        ReachSelf(script, m);
        assert input[0..] == input;
      } else {
        var q := Point(p.read, p.emitted + 1);
        GreedyAnswers(script, q, input, room - 1);
        var g := Greedy(script, q, input, room - 1);
        ReachStep(script, m);
        assert Step(script, m) == At(q, input, [b], 0);
        StepThen(script, m, q, input, [b], g, input, room - 1, room, r);
      }
  }

  /** One micro-step followed by an answered call is an answered call. */
  lemma StepThen(script: Script, m: Machine, q: Point, left: seq<byte>, done: seq<byte>, g: Reply<Point>,
                 input: seq<byte>, space: nat, room: nat, r: Reply<Point>)
    requires m.out == [] && m.frames == 0 && m.unread == input
    requires Reach(script, m, At(q, left, done, 0))
    requires Answers(script, q, left, space, g, g.state)
    requires |left| <= |input| && left == input[|input| - |left|..]
    requires |done| + space == room
    requires r == Reply(g.state, |input| - |left| + g.consumed, done + g.emitted, g.code)
    ensures Answers(script, Point(m.read, m.emitted), input, room, r, r.state)
  {
    var mid := At(q, left, done, 0);
    assert At(q, left, [], 0).Within(done, 0, []) == mid by {
      assert done + [] == done && left + [] == left;
    }
    assert At(Point(m.read, m.emitted), input, [], 0) == m;
    match g.code
    case Error(code) =>
      var t :| Reach(script, At(q, left, [], 0), t) && ActOf(script, t) == Fail(code)
               && |t.out| <= space && t.frames == 0;
      ReachWithin(script, At(q, left, [], 0), t, done, 0, []);
      var u := t.Within(done, 0, []);
      ReachTrans(script, m, mid, u);
      assert ActOf(script, u) == Fail(code) && |u.out| <= room && u.frames == 0;
    case Hint(more) =>
      var t := At(g.state, left[g.consumed..], g.emitted, Ended(g.code));
      ReachWithin(script, At(q, left, [], 0), t, done, 0, []);
      var u := At(r.state, input[r.consumed..], r.emitted, Ended(r.code));
      assert t.Within(done, 0, []) == u by {
        assert left[g.consumed..] + [] == input[r.consumed..];
      }
      ReachTrans(script, m, mid, u);
  }

  /** The contracts can be met: a greedy decoder of any script meets all of them. */
  lemma GreedyMeetsContract(script: Script)
    ensures Follows(GreedyDecoder(script), (p: Point) => p, script)
    ensures Progresses(GreedyDecoder(script), (p: Point) => p, script)
    ensures Prompt(GreedyDecoder(script), (p: Point) => p, script)
  {
    forall p: Point, input, room: nat
      ensures var r := Greedy(script, p, input, room);
              && Answers(script, p, input, room, r, r.state)
              && r.consumed <= |input| && |r.emitted| <= room
              && (CanMove(script, p, input, room) ==> Moved(r))
              && (r.code.Hint? && r.code.more != 0 ==>
                    !CanMove(script, r.state, input[r.consumed..], room - |r.emitted|))
    {
      GreedyAnswers(script, p, input, room);
    }
  }

  /** A decoder that defers the end of each frame to a call of its own meets all but promptness. */
  lemma LazyMeetsContract(script: Script)
    ensures Follows(LazyDecoder(script), (p: Point) => p, script)
    ensures Progresses(LazyDecoder(script), (p: Point) => p, script)
  {
    forall p: Point, input, room: nat
      ensures var r := Lazy(script, p, input, room);
              && Answers(script, p, input, room, r, r.state)
              && r.consumed <= |input| && |r.emitted| <= room
    {
      var m := At(p, input, [], 0);
      ReachSelf(script, m);
      assert input[0..] == input;
      if CanStep(script, m) {
        ReachStep(script, m);
      }
    }
  }
}
