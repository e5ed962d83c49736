/**
 A small library that meets every contract the round trips assume: bytes are stored behind tags.
 It shows that the assumptions can be met together.
 */
module StoredCodec {
  import opened Basics
  import opened Script
  import opened Codec
  import opened Options
  import opened Encoding
  import Bridge
  import SingleFrame

  /** A tag 1 before each byte; a tag 0 ends the frame. */
  function Tagged(data: seq<byte>): (r: seq<byte>)
    ensures |r| == 2 * |data|
  {
    if data == [] then [] else Tagged(data[..|data| - 1]) + [1, data[|data| - 1]]
  }

  function Frame(data: seq<byte>): seq<byte> {
    Tagged(data) + [0]
  }

  function Unstore(read: seq<byte>, emitted: nat): Act {
    if read == [] then Read
    else if |read| % 2 == 1 then
      if read[|read| - 1] == 0 then End else if read[|read| - 1] == 1 then Read else Fail(20)
    else if emitted < |read| / 2 then Emit(read[|read| - 1])
    else Read
  }

  lemma {:induction false} TaggedRuns(data: seq<byte>, rest: seq<byte>)
    ensures Reach(Unstore, Start(Tagged(data) + rest), Machine(Tagged(data), |data|, rest, data, 0))
  {
    if data == [] {
      assert Tagged(data) + rest == rest;
      ReachSelf(Unstore, Start(rest));
    } else {
      var d, b := data[..|data| - 1], data[|data| - 1];
      var t := Tagged(d);
      TaggedRuns(d, [1, b] + rest);
      assert Tagged(data) + rest == t + ([1, b] + rest);
      var m0 := Machine(t, |d|, [1, b] + rest, d, 0);
      var m1 := Machine(t + [1], |d|, [b] + rest, d, 0);
      var m2 := Machine(t + [1] + [b], |d|, rest, d, 0);
      var m3 := Machine(t + [1] + [b], |d| + 1, rest, d + [b], 0);
      assert m0.unread[1..] == m1.unread && m1.unread[1..] == m2.unread;
      assert Step(Unstore, m0) == m1 && Step(Unstore, m1) == m2 && Step(Unstore, m2) == m3;
      ReachStep(Unstore, m0);
      ReachStep(Unstore, m1);
      ReachStep(Unstore, m2);
      ReachTrans(Unstore, m1, m2, m3);
      ReachTrans(Unstore, m0, m1, m3);
      ReachTrans(Unstore, Start(Tagged(data) + rest), m0, m3);
      assert t + [1] + [b] == Tagged(data) && d + [b] == data;
    }
  }

  lemma FrameDecodes(data: seq<byte>)
    ensures OneFrame(Unstore, Frame(data), data)
  {
    TaggedRuns(data, [0]);
    var m0 := Machine(Tagged(data), |data|, [0], data, 0);
    var m1 := Machine(Tagged(data) + [0], |data|, [], data, 0);
    var end := Machine([], 0, [], data, 1);
    assert Step(Unstore, m0) == m1 && Step(Unstore, m1) == end;
    ReachStep(Unstore, m0);
    ReachStep(Unstore, m1);
    ReachTrans(Unstore, m0, m1, end);
    ReachTrans(Unstore, Start(Frame(data)), m0, end);
  }

  // ----- the encoder

  lemma {:induction false} TaggedGrows(a: seq<byte>, b: seq<byte>)
    ensures Tagged(a) <= Tagged(a + b)
  {
    if b == [] {
      assert a + b == a;
    } else {
      var c := b[..|b| - 1];
      TaggedGrows(a, c);
      assert (a + b)[..|a + b| - 1] == a + c;
    }
  }

  /** What has to have been sent for what was fed, in the end. */
  function Due(fed: seq<byte>, dir: Directive): seq<byte> {
    if dir == Finish then Frame(fed) else Tagged(fed)
  }

  /** Takes all it is offered and sends what there is room for; after the end of the frame it fails. */
  function Store(s: Flow, input: seq<byte>, room: nat, dir: Directive): Reply<Flow> {
    var fed := s.fed + input;
    var due := Due(fed, dir);
    if |s.sent| > |Tagged(s.fed)| || |s.sent| > |due| then Reply(s, 0, [], Error(1))
    else
      var emitted := due[|s.sent|..|s.sent| + Min(room, |due| - |s.sent|)];
      Reply(Flow(fed, s.sent + emitted), |input|, emitted,
            if dir == Finish && |s.sent + emitted| == |due| then Hint(0) else Hint(1))
  }

  function StoreEncoder(): Encoder<Flow> {
    Encoder<Flow>.Encoder(Flow([], []), Store)
  }

  ghost function StoreReading(): Reading<Flow> {
    Reading<Flow>.Reading(
      (s: Flow) => s,
      (s: Flow) => s.sent <= Tagged(s.fed),
      (fed: seq<byte>, sent: seq<byte>) => sent == Frame(fed),
      (n: nat) => 2 * n + 1)
  }

  /** What one call does before the end of the frame: it sends the next part of what is due. */
  lemma StoreSends(s: Flow, input: seq<byte>, room: nat, dir: Directive)
    requires s.sent <= Tagged(s.fed)
    ensures var r, due := Store(s, input, room, dir), Due(s.fed + input, dir);
            && r.state == Flow(s.fed + input, s.sent + r.emitted) && r.consumed == |input|
            && r.state.sent <= due && |r.emitted| == Min(room, |due| - |s.sent|)
            && r.code == (if dir == Finish && |r.state.sent| == |due| then Hint(0) else Hint(1))
  {
    TaggedGrows(s.fed, input);
  }

  lemma StoreEncoded(s: Flow, input: seq<byte>, room: nat, dir: Directive)
    requires s.sent <= Tagged(s.fed)
    ensures Encoded<Flow>(StoreEncoder(), StoreReading(), s, input, room, dir)
    ensures Store(s, input, room, dir).code.Hint?
  {
    StoreSends(s, input, room, dir);
    assert input[..|input|] == input;
    var sent, tagged := Store(s, input, room, dir).state.sent, Tagged(s.fed + input);
    assert |sent| <= |tagged| && sent <= tagged + [0] ==> sent <= tagged;
  }

  lemma StoreEncodes()
    ensures Encodes<Flow>(StoreEncoder(), StoreReading())
    ensures forall target :: Infallible<Flow>(StoreEncoder(), StoreReading(), target)
  {
    forall s: Flow, input, room: nat, dir | s.sent <= Tagged(s.fed)
      ensures Encoded<Flow>(StoreEncoder(), StoreReading(), s, input, room, dir)
      ensures StoreEncoder().step(s, input, room, dir).code.Hint?
    {
      StoreEncoded(s, input, room, dir);
    }
  }

  // ----- the library

  function Library(): Bridge.Library<Flow, Point> {
    Bridge.Library<Flow, Point>.Library(
      (p: Params, n: nat, b: seq<byte>) => StoreEncoder(),
      (w: nat, b: seq<byte>) => GreedyDecoder(Unstore),
      (f: seq<byte>) => SingleFrame.Parsed(true, 0, None),
      (f: seq<byte>) => 0,
      (level: int, n: nat, b: nat) => CParams(0, 0, 0, []),
      (q: CParams, n: nat, b: nat) => q)
  }

  ghost function Theory(): Bridge.Theory<Flow, Point> {
    Bridge.Theory<Flow, Point>.Theory(
      (p: Params, n: nat, b: seq<byte>) => StoreReading(),
      (p: Point) => p,
      (w: nat, b: seq<byte>) => Unstore)
  }

  /** All assumptions of the round trips hold of this library. */
  lemma ContractsCanBeMet()
    ensures Bridge.Correct<Flow, Point>(Library(), Theory()) && Bridge.Inverse<Flow, Point>(Library(), Theory())
    ensures Bridge.Reliable<Flow, Point>(Library(), Theory())
  {
    StoreEncodes();
    GreedyMeetsContract(Unstore);
    forall p: Params, b: seq<byte>, data: seq<byte> ensures Bridge.Inverts<Flow, Point>(Library(), Theory(), p, b, data) {
      FrameDecodes(data);
    }
  }

  /** Its payloads are there: every target whose tagged bytes fit the limit is encoded, to just these. */
  lemma StoredPayload(p: Params, base: seq<byte>, target: seq<byte>, k: Setup)
    requires k.Usable()
    ensures Bridge.Correct<Flow, Point>(Library(), Theory())
    ensures Bridge.Payload<Flow, Point>(Library(), Theory(), p, base, target, k)
            == if 2 * |target| + 1 <= k.limit then Ok(Frame(target)) else Err(Limit)
  {
    ContractsCanBeMet();
    StoreEncodes();
    EncodeIsExact<Flow>(StoreEncoder(), StoreReading(), k, target);
  }
}
