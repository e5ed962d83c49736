/**
 What a streaming zstd decoder does, as a deterministic script of micro-steps.

 The script is a function of the bytes of the current frame it has read and of how many
 content bytes of that frame it has emitted.  Sections 3.1 and 3.1.2 of RFC 8878 describe
 streams as concatenations of frames; skippable frames are frames that emit nothing.
 */
module Script {
  import opened Basics

  datatype Act =
    | Read               // wants the next byte of the frame
    | Emit(b: byte)      // has a content byte ready
    | End                // the frame is complete
    | Fail(code: nat)    // the frame is malformed

  type Script = (seq<byte>, nat) -> Act

  /** A decoder with everything it can still read and everything it has emitted. */
  datatype Machine = Machine(
    read: seq<byte>,     // bytes of the current frame read so far
    emitted: nat,        // content bytes of the current frame emitted so far
    unread: seq<byte>,
    out: seq<byte>,
    frames: nat)         // frames completed
  {
    predicate AtBoundary() {
      read == [] && emitted == 0
    }

    /** The same machine with more input behind, and earlier output before, its own. */
    function Within(before: seq<byte>, done: nat, rest: seq<byte>): Machine {
      Machine(read, emitted, unread + rest, before + out, done + frames)
    }
  }

  function Start(input: seq<byte>): Machine {
    Machine([], 0, input, [], 0)
  }

  function ActOf(script: Script, m: Machine): Act {
    script(m.read, m.emitted)
  }

  predicate CanStep(script: Script, m: Machine) {
    match ActOf(script, m)
    case Read => m.unread != []
    case Emit(_) => true
    case End => true
    case Fail(_) => false
  }

  function Step(script: Script, m: Machine): Machine
    requires CanStep(script, m)
  {
    match ActOf(script, m)
    case Read => m.(read := m.read + [m.unread[0]], unread := m.unread[1..])
    case Emit(b) => m.(emitted := m.emitted + 1, out := m.out + [b])
    case End => m.(read := [], emitted := 0, frames := m.frames + 1)
  }

  /** Runs at most `n` micro-steps, stopping where none is possible. */
  function Run(script: Script, m: Machine, n: nat): Machine
    decreases n
  {
    if n == 0 || !CanStep(script, m) then m else Run(script, Step(script, m), n - 1)
  }

  ghost predicate Reach(script: Script, m: Machine, t: Machine) {
    exists n: nat :: Run(script, m, n) == t
  }

  /** `bytes` is exactly one frame, and its content is `content`. */
  ghost predicate OneFrame(script: Script, bytes: seq<byte>, content: seq<byte>) {
    Reach(script, Start(bytes), Machine([], 0, [], content, 1))
  }

  /** `bytes` is one frame whose content has `size` bytes. */
  ghost predicate DecodesTo(script: Script, bytes: seq<byte>, size: nat) {
    exists content :: |content| == size && OneFrame(script, bytes, content)
  }

  /** `bytes` is a run of complete frames, at least one, with contents joined to `content`. */
  ghost predicate Frames(script: Script, bytes: seq<byte>, content: seq<byte>) {
    exists k: nat :: k >= 1 && Reach(script, Start(bytes), Machine([], 0, [], content, k))
  }

  /** A frame opens with a magic number, so a decoder between frames can only read. */
  predicate Opens(script: Script) {
    script([], 0) == Read
  }

  // ----- the run is deterministic

  lemma {:induction false} RunTrans(script: Script, m: Machine, a: nat, b: nat)
    ensures Run(script, Run(script, m, a), b) == Run(script, m, a + b)
    decreases a
  {
    if a == 0 {
    } else if CanStep(script, m) {
      RunTrans(script, Step(script, m), a - 1, b);
    }
  }

  lemma ReachSelf(script: Script, m: Machine)
    ensures Reach(script, m, m)
  {
    assert Run(script, m, 0) == m;
  }

  lemma ReachStep(script: Script, m: Machine)
    requires CanStep(script, m)
    ensures Reach(script, m, Step(script, m))
  {
    assert Run(script, Step(script, m), 0) == Step(script, m);
    assert Run(script, m, 1) == Step(script, m);
  }

  lemma ReachTrans(script: Script, a: Machine, b: Machine, c: Machine)
    requires Reach(script, a, b) && Reach(script, b, c)
    ensures Reach(script, a, c)
  {
    var x: nat :| Run(script, a, x) == b;
    var y: nat :| Run(script, b, y) == c;
    RunTrans(script, a, x, y);
  }

  /** Two states of one run are ordered. */
  lemma ReachOrder(script: Script, m: Machine, a: Machine, b: Machine)
    requires Reach(script, m, a) && Reach(script, m, b)
    ensures Reach(script, a, b) || Reach(script, b, a)
  {
    var x: nat :| Run(script, m, x) == a;
    var y: nat :| Run(script, m, y) == b;
    if x <= y {
      RunTrans(script, m, x, y - x);
    } else {
      RunTrans(script, m, y, x - y);
    }
  }

  lemma ReachStuck(script: Script, m: Machine, t: Machine)
    requires !CanStep(script, m) && Reach(script, m, t)
    ensures t == m
  {
  }

  /** Output only grows, input is only consumed from the front, frames only add up. */
  lemma {:induction false} RunGrows(script: Script, m: Machine, n: nat)
    ensures var t := Run(script, m, n);
            && m.out <= t.out
            && m.frames <= t.frames
            && |t.unread| <= |m.unread|
            && t.unread == m.unread[|m.unread| - |t.unread|..]
    decreases n
  {
    if n > 0 && CanStep(script, m) {
      RunGrows(script, Step(script, m), n - 1);
    }
  }

  lemma ReachGrows(script: Script, m: Machine, t: Machine)
    requires Reach(script, m, t)
    ensures m.out <= t.out && m.frames <= t.frames && |t.unread| <= |m.unread|
    ensures t.unread == m.unread[|m.unread| - |t.unread|..]
  {
    var n: nat :| Run(script, m, n) == t;
    RunGrows(script, m, n);
  }

  /** Inside a frame, the only way back to a boundary is to complete the frame. */
  lemma {:induction false} RunLeavesBoundary(script: Script, m: Machine, n: nat)
    requires !m.AtBoundary()
    ensures var t := Run(script, m, n); t.AtBoundary() ==> t.frames > m.frames
    decreases n
  {
    if n > 0 && CanStep(script, m) {
      var next := Step(script, m);
      if ActOf(script, m).End? {
        RunGrows(script, next, n - 1);
      } else {
        RunLeavesBoundary(script, next, n - 1);
      }
    }
  }

  /** A run that comes to a boundary without completing a frame has not moved. */
  lemma ReachBoundary(script: Script, m: Machine, t: Machine)
    requires Reach(script, m, t) && t.AtBoundary() && t.frames == m.frames
    ensures m == t
  {
    var n: nat :| Run(script, m, n) == t;
    if !m.AtBoundary() {
      RunLeavesBoundary(script, m, n);
    } else if n > 0 && CanStep(script, m) {
      var next := Step(script, m);
      RunGrows(script, next, n - 1);
      if !ActOf(script, m).End? {
        RunLeavesBoundary(script, next, n - 1);
      }
    }
  }

  // ----- the run is local: what lies behind the input and before the output is not looked at

  lemma StepWithin(script: Script, m: Machine, before: seq<byte>, done: nat, rest: seq<byte>)
    requires CanStep(script, m)
    ensures CanStep(script, m.Within(before, done, rest))
    ensures Step(script, m.Within(before, done, rest)) == Step(script, m).Within(before, done, rest)
  {
    if ActOf(script, m).Read? {
      assert (m.unread + rest)[1..] == m.unread[1..] + rest;
    } else if ActOf(script, m).Emit? {
      var b := ActOf(script, m).b;
      assert before + (m.out + [b]) == (before + m.out) + [b];
    }
  }

  /** A run on a slice is part of the run on the whole. */
  lemma {:induction false} RunWithin(script: Script, m: Machine, n: nat,
                                     before: seq<byte>, done: nat, rest: seq<byte>)
    ensures Reach(script, m.Within(before, done, rest), Run(script, m, n).Within(before, done, rest))
    decreases n
  {
    var big := m.Within(before, done, rest);
    if n == 0 || !CanStep(script, m) {
      ReachSelf(script, big);
    } else {
      StepWithin(script, m, before, done, rest);
      ReachStep(script, big);
      RunWithin(script, Step(script, m), n - 1, before, done, rest);
      ReachTrans(script, big, Step(script, big), Run(script, m, n).Within(before, done, rest));
    }
  }

  lemma ReachWithin(script: Script, m: Machine, t: Machine,
                    before: seq<byte>, done: nat, rest: seq<byte>)
    requires Reach(script, m, t)
    ensures Reach(script, m.Within(before, done, rest), t.Within(before, done, rest))
  {
    var n: nat :| Run(script, m, n) == t;
    RunWithin(script, m, n, before, done, rest);
  }

  /** A step on the whole that leaves `rest` unread is a step on the slice. */
  lemma StepWithout(script: Script, m: Machine, before: seq<byte>, done: nat, rest: seq<byte>)
    requires CanStep(script, m.Within(before, done, rest))
    requires |Step(script, m.Within(before, done, rest)).unread| >= |rest|
    ensures CanStep(script, m)
  {
    EmptyPrefix(rest);
  }

  lemma EmptyPrefix(s: seq<byte>)
    ensures [] + s == s
  {
  }

  /** Conversely, a run on the whole that never touches `rest` is the run on the slice, step by step. */
  lemma {:induction false} RunWithout(script: Script, m: Machine, n: nat,
                                      before: seq<byte>, done: nat, rest: seq<byte>)
    requires |Run(script, m.Within(before, done, rest), n).unread| >= |rest|
    ensures Run(script, m.Within(before, done, rest), n) == Run(script, m, n).Within(before, done, rest)
    decreases n
  {
    var big := m.Within(before, done, rest);
    if n > 0 {
      if CanStep(script, big) {
        RunGrows(script, Step(script, big), n - 1);
        StepWithout(script, m, before, done, rest);
        StepWithin(script, m, before, done, rest);
        RunWithout(script, Step(script, m), n - 1, before, done, rest);
      } else if CanStep(script, m) {
        StepWithin(script, m, before, done, rest);
      }
    }
  }

  // ----- frames and streams decode in one way only

  lemma OneFrameUnique(script: Script, bytes: seq<byte>, a: seq<byte>, b: seq<byte>)
    requires OneFrame(script, bytes, a) && OneFrame(script, bytes, b)
    ensures a == b
  {
    var x := Machine([], 0, [], a, 1);
    var y := Machine([], 0, [], b, 1);
    ReachOrder(script, Start(bytes), x, y);
    if Reach(script, x, y) {
      ReachBoundary(script, x, y);
    } else {
      ReachBoundary(script, y, x);
    }
  }

  /** The end of a stream of frames is the end of the run. */
  lemma FramesEnd(script: Script, bytes: seq<byte>, content: seq<byte>, k: nat, t: Machine)
    requires Opens(script)
    requires Reach(script, Start(bytes), Machine([], 0, [], content, k))
    requires Reach(script, Start(bytes), t)
    ensures Reach(script, t, Machine([], 0, [], content, k))
    ensures !CanStep(script, t) ==> t == Machine([], 0, [], content, k)
  {
    var end := Machine([], 0, [], content, k);
    ReachOrder(script, Start(bytes), end, t);
    if Reach(script, end, t) {
      ReachStuck(script, end, t);
      ReachSelf(script, t);
    }
    if !CanStep(script, t) {
      ReachStuck(script, t, end);
    }
  }

  lemma FramesUnique(script: Script, bytes: seq<byte>, a: seq<byte>, b: seq<byte>)
    requires Opens(script) && Frames(script, bytes, a) && Frames(script, bytes, b)
    ensures a == b
  {
    var k: nat :| k >= 1 && Reach(script, Start(bytes), Machine([], 0, [], a, k));
    var l: nat :| l >= 1 && Reach(script, Start(bytes), Machine([], 0, [], b, l));
    FramesEnd(script, bytes, a, k, Machine([], 0, [], b, l));
  }

  // ----- a stream of frames is a concatenation of frames

  datatype Piece = Piece(bytes: seq<byte>, content: seq<byte>)

  function JoinBytes(pieces: seq<Piece>): seq<byte> {
    if pieces == [] then [] else pieces[0].bytes + JoinBytes(pieces[1..])
  }

  function JoinContents(pieces: seq<Piece>): seq<byte> {
    if pieces == [] then [] else pieces[0].content + JoinContents(pieces[1..])
  }

  ghost predicate AllFrames(script: Script, pieces: seq<Piece>) {
    forall p :: p in pieces ==> OneFrame(script, p.bytes, p.content)
  }

  lemma {:induction false} JoinReaches(script: Script, pieces: seq<Piece>)
    requires AllFrames(script, pieces)
    ensures Reach(script, Start(JoinBytes(pieces)), Machine([], 0, [], JoinContents(pieces), |pieces|))
  {
    if pieces == [] {
      ReachSelf(script, Start([]));
    } else {
      var p, tail := pieces[0], pieces[1..];
      assert OneFrame(script, p.bytes, p.content);
      var rest := JoinBytes(tail);
      ReachWithin(script, Start(p.bytes), Machine([], 0, [], p.content, 1), [], 0, rest);
      var mid := Machine([], 0, rest, p.content, 1);
      assert Start(p.bytes).Within([], 0, rest) == Start(JoinBytes(pieces));
      assert Machine([], 0, [], p.content, 1).Within([], 0, rest) == mid;
      JoinReaches(script, tail);
      var end := Machine([], 0, [], JoinContents(tail), |tail|);
      ReachWithin(script, Start(rest), end, p.content, 1, []);
      assert Start(rest).Within(p.content, 1, []) == mid;
      assert end.Within(p.content, 1, []) == Machine([], 0, [], JoinContents(pieces), |pieces|);
      ReachTrans(script, Start(JoinBytes(pieces)), mid, Machine([], 0, [], JoinContents(pieces), |pieces|));
    }
  }

  /** The first moment at which a run has completed one more frame. */
  lemma {:induction false} FirstEnd(script: Script, m: Machine, n: nat) returns (t: Machine)
    requires Run(script, m, n).frames > m.frames
    ensures Reach(script, m, t) && Reach(script, t, Run(script, m, n))
    ensures t.AtBoundary() && t.frames == m.frames + 1
    ensures exists k: nat :: k < n && Run(script, t, k) == Run(script, m, n)
    decreases n
  {
    var next := Step(script, m);
    ReachStep(script, m);
    if ActOf(script, m).End? {
      t := next;
      assert Run(script, t, n - 1) == Run(script, m, n);
    } else {
      t := FirstEnd(script, next, n - 1);
      ReachTrans(script, m, next, t);
      var k: nat :| k < n - 1 && Run(script, t, k) == Run(script, m, n);
      assert k < n && Run(script, t, k) == Run(script, m, n);
    }
  }

  /** What a run has read when it comes to the end of the first frame is that frame. */
  lemma HeadIsFrame(script: Script, head: seq<byte>, t: Machine, x: nat)
    requires Run(script, Start(head + t.unread), x) == t && t.AtBoundary() && t.frames == 1
    ensures OneFrame(script, head, t.out)
  {
    var first := Run(script, Start(head), x);
    assert Start(head).Within([], 0, t.unread) == Start(head + t.unread);
    RunWithout(script, Start(head), x, [], 0, t.unread);
    assert |first.unread| == 0;
    assert first == Machine([], 0, [], t.out, 1);
  }

  /** From the end of a frame, the run goes on as if the stream began there. */
  lemma TailIsStream(script: Script, t: Machine, y: nat, content: seq<byte>, k: nat) returns (tail: seq<byte>)
    requires t.AtBoundary() && t.frames == 1 && Run(script, t, y) == Machine([], 0, [], content, k)
    ensures k >= 1 && content == t.out + tail
    ensures Run(script, Start(t.unread), y) == Machine([], 0, [], tail, k - 1)
  {
    var second := Run(script, Start(t.unread), y);
    assert Start(t.unread).Within(t.out, 1, []) == t;
    RunWithout(script, Start(t.unread), y, t.out, 1, []);
    tail := second.out;
    assert |second.unread| == 0;
  }

  /** Cutting a stream behind its first frame: the frame, and a shorter run on the rest. */
  lemma CutFrame(script: Script, bytes: seq<byte>, n: nat, content: seq<byte>, k: nat)
      returns (head: Piece, rest: seq<byte>, tail: seq<byte>, y: nat)
    requires k > 0 && Run(script, Start(bytes), n) == Machine([], 0, [], content, k)
    ensures OneFrame(script, head.bytes, head.content)
    ensures bytes == head.bytes + rest && content == head.content + tail
    ensures y < n && Run(script, Start(rest), y) == Machine([], 0, [], tail, k - 1)
  {
    var t := FirstEnd(script, Start(bytes), n);
    ReachGrows(script, Start(bytes), t);
    rest := t.unread;
    head := Piece(bytes[..|bytes| - |rest|], t.out);
    assert bytes == head.bytes + rest;
    var x: nat :| Run(script, Start(bytes), x) == t;
    HeadIsFrame(script, head.bytes, t, x);
    y :| y < n && Run(script, t, y) == Machine([], 0, [], content, k);
    tail := TailIsStream(script, t, y, content, k);
  }

  lemma {:induction false} SplitFrames(script: Script, bytes: seq<byte>, n: nat, content: seq<byte>, k: nat)
      returns (pieces: seq<Piece>)
    requires Run(script, Start(bytes), n) == Machine([], 0, [], content, k)
    ensures AllFrames(script, pieces) && |pieces| == k
    ensures JoinBytes(pieces) == bytes && JoinContents(pieces) == content
    decreases n
  {
    if k == 0 {
      ReachBoundary(script, Start(bytes), Machine([], 0, [], content, 0));
      pieces := [];
    } else {
      var head, rest, tail, y := CutFrame(script, bytes, n, content, k);
      var others := SplitFrames(script, rest, y, tail, k - 1);
      pieces := [head] + others;
      assert pieces[1..] == others;
    }
  }

  /** The run-based reading of a stream agrees with the grammar: frames, one after another. */
  lemma FramesAreConcatenations(script: Script, bytes: seq<byte>, content: seq<byte>)
    ensures Frames(script, bytes, content) <==>
            exists pieces ::
              && pieces != []
              && AllFrames(script, pieces)
              && JoinBytes(pieces) == bytes
              && JoinContents(pieces) == content
  {
    if Frames(script, bytes, content) {
      var k: nat :| k >= 1 && Reach(script, Start(bytes), Machine([], 0, [], content, k));
      var n: nat :| Run(script, Start(bytes), n) == Machine([], 0, [], content, k);
      var pieces := SplitFrames(script, bytes, n, content, k);
    }
    if pieces :| pieces != [] && AllFrames(script, pieces)
                 && JoinBytes(pieces) == bytes && JoinContents(pieces) == content {
      JoinReaches(script, pieces);
    }
  }
}
