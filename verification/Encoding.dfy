/** Driving a streaming encoder over a target in bounded chunks: `zstd_encode` and the HDiffPatch plugin. */
module Encoding {
  import opened Basics
  import opened Codec
  import opened Buffers

  // ----- the encoder's contract

  datatype Directive = Continue | Finish

  /** ZSTD_CCtx: `step` is ZSTD_compressStream2 on a state, the offered input, the room and the directive. */
  datatype Encoder<!S> = Encoder(init: S, step: (S, seq<byte>, nat, Directive) -> Reply<S>)

  /** All that an encoder has been fed and all that it has sent. */
  datatype Flow = Flow(fed: seq<byte>, sent: seq<byte>)

  /** How the states of an encoder are read: nothing is asked of states that are not open. */
  datatype Reading<!S> = Reading(
    flow: S -> Flow,
    open: S -> bool,                          // the frame is not complete
    coded: (seq<byte>, seq<byte>) -> bool,    // what may have been sent, in all, for what was fed
    bound: nat -> nat)                        // the most that is sent for so many bytes

  /**
   Until its frame is complete, the encoder stays inside its buffers, moves whenever it is given
   something to do, and sends no more than a bound on what it was fed.  It returns 0 for the end
   directive only when everything offered is taken and what it sent codes what it was fed.  One input
   may have many codings; which one comes out may depend on how the input was cut.
   */
  ghost predicate Encodes<S(!new)>(c: Encoder<S>, w: Reading<S>) {
    && w.open(c.init) && w.flow(c.init) == Flow([], [])
    && (forall a: nat, b: nat :: a <= b ==> w.bound(a) <= w.bound(b))
    && forall s, input, room: nat, dir :: w.open(s) ==> Encoded(c, w, s, input, room, dir)
  }

  ghost predicate Encoded<S>(c: Encoder<S>, w: Reading<S>, s: S, input: seq<byte>, room: nat, dir: Directive) {
    var r := c.step(s, input, room, dir);
    && r.consumed <= |input| && |r.emitted| <= room
    && (r.code.Hint? ==>
          && w.flow(r.state) == Flow(w.flow(s).fed + input[..r.consumed], w.flow(s).sent + r.emitted)
          && |w.flow(r.state).sent| <= w.bound(|w.flow(r.state).fed|)
          && if dir == Finish && r.code == Hint(0)
             then r.consumed == |input| && w.coded(w.flow(r.state).fed, w.flow(r.state).sent)
             else
               && w.open(r.state)
               && (room > 0 && (dir == Finish || input != []) ==> r.consumed > 0 || r.emitted != []))
  }

  // ----- the loops

  /** Chunk and output buffer sizes, and the bound on the output. */
  datatype Setup = Setup(chunk: nat, room: nat, limit: nat)
  {
    predicate Usable() { chunk > 0 && room > 0 }
  }

  /** The end of the chunk that starts at `pos`. */
  function ChunkEnd(k: Setup, pos: nat, end: nat): (r: nat)
    requires pos <= end
    ensures pos <= r <= end
  {
    pos + Min(k.chunk, end - pos)
  }

  function DirectiveFor(stop: nat, end: nat): Directive {
    if stop == end then Finish else Continue
  }

  /** One call as the encoder saw it. */
  datatype Feed = Feed(
    offset: nat, offered: seq<byte>, directive: Directive, consumed: nat, emitted: seq<byte>, code: Code)

  /** Where both loops stand: the state, what is consumed, where the current chunk stops, what is out. */
  ghost predicate Stands<S>(w: Reading<S>, k: Setup, s: S, target: seq<byte>, done: nat, stop: nat, out: seq<byte>) {
    && k.Usable()
    && done <= stop <= |target|
    && (done == stop ==> stop == |target|)
    && w.open(s) && w.flow(s) == Flow(target[..done], out)
    && |out| <= k.limit
  }

  datatype Turn<+S> = Halt(result: Result<seq<byte>>) | More(state: S, done: nat, stop: nat, out: seq<byte>)

  /** The checks after a call, and the two loop conditions. */
  function TurnOf<S>(k: Setup, r: Reply<S>, end: nat, done: nat, stop: nat, out: seq<byte>): Turn<S>
    requires done + r.consumed <= stop <= end && |out| <= k.limit
  {
    if r.code.Error? then Halt(Err(ZStatus(r.code.code)))
    else if |r.emitted| > k.limit - |out| then Halt(Err(Limit))
    else if stop == end && r.code == Hint(0) then Halt(Ok(out + r.emitted))
    else
      var done' := done + r.consumed;
      More(r.state, done', if stop < end && done' == stop then ChunkEnd(k, stop, end) else stop, out + r.emitted)
  }

  ghost function Call<S(!new)>(c: Encoder<S>, k: Setup, s: S, target: seq<byte>, done: nat, stop: nat): Reply<S>
    requires done <= stop <= |target|
  {
    c.step(s, target[done..stop], k.room, DirectiveFor(stop, |target|))
  }

  /** What every turn keeps; unread target plus unsent output is the measure that makes the loops end. */
  lemma Advance<S(!new)>(c: Encoder<S>, w: Reading<S>,
                         k: Setup, s: S, target: seq<byte>, done: nat, stop: nat, out: seq<byte>)
    requires Encodes(c, w) && Stands(w, k, s, target, done, stop, out) && |out| <= w.bound(done)
    ensures var r := Call(c, k, s, target, done, stop);
            && done + r.consumed <= stop && |r.emitted| <= k.room
            && (r.code.Hint? ==> |out + r.emitted| <= w.bound(|target|))
            && match TurnOf(k, r, |target|, done, stop, out)
               case Halt(Ok(v)) =>
                 && done + r.consumed == |target| && v == out + r.emitted
                 && w.coded(target, v) && |v| <= k.limit && |v| <= w.bound(|target|)
               case Halt(Err(_)) => true
               case More(s', done', stop', out') =>
                 && Stands(w, k, s', target, done', stop', out') && |out'| <= w.bound(done') <= w.bound(|target|)
                 && |target| - done' + w.bound(|target|) - |out'| < |target| - done + w.bound(|target|) - |out|
  {
    var dir := DirectiveFor(stop, |target|);
    assert Encoded(c, w, s, target[done..stop], k.room, dir);
    var r := Call(c, k, s, target, done, stop);
    assert target[..done] + target[done..stop][..r.consumed] == target[..done + r.consumed];
    assert target[..|target|] == target;
    assert w.bound(done + r.consumed) <= w.bound(|target|);
  }

  /** The outer loop over chunks and the inner loop over calls, as one run. */
  ghost function Loop<S(!new)>(c: Encoder<S>, w: Reading<S>,
                               k: Setup, s: S, target: seq<byte>, done: nat, stop: nat, out: seq<byte>)
      : Result<seq<byte>>
    requires Encodes(c, w) && Stands(w, k, s, target, done, stop, out) && |out| <= w.bound(done)
    decreases |target| - done + w.bound(|target|) - |out|
  {
    Advance(c, w, k, s, target, done, stop, out);
    match TurnOf(k, Call(c, k, s, target, done, stop), |target|, done, stop, out)
    case Halt(result) => result
    case More(s', done', stop', out') => Loop(c, w, k, s', target, done', stop', out')
  }

  /** The calls of that run. */
  ghost function Feeds<S(!new)>(c: Encoder<S>, w: Reading<S>,
                                k: Setup, s: S, target: seq<byte>, done: nat, stop: nat, out: seq<byte>): seq<Feed>
    requires Encodes(c, w) && Stands(w, k, s, target, done, stop, out) && |out| <= w.bound(done)
    decreases |target| - done + w.bound(|target|) - |out|
  {
    Advance(c, w, k, s, target, done, stop, out);
    var r := Call(c, k, s, target, done, stop);
    var feed := Feed(done, target[done..stop], DirectiveFor(stop, |target|), r.consumed, r.emitted, r.code);
    match TurnOf(k, r, |target|, done, stop, out)
    case Halt(_) => [feed]
    case More(s', done', stop', out') => [feed] + Feeds(c, w, k, s', target, done', stop', out')
  }

  ghost function Encode<S(!new)>(c: Encoder<S>, w: Reading<S>,
                                 k: Setup, target: seq<byte>): Result<seq<byte>>
    requires Encodes(c, w) && k.Usable()
  {
    assert [] == target[..0];
    Loop(c, w, k, c.init, target, 0, ChunkEnd(k, 0, |target|), [])
  }

  ghost function AllFeeds<S(!new)>(c: Encoder<S>, w: Reading<S>,
                                   k: Setup, target: seq<byte>): seq<Feed>
    requires Encodes(c, w) && k.Usable()
  {
    assert [] == target[..0];
    Feeds(c, w, k, c.init, target, 0, ChunkEnd(k, 0, |target|), [])
  }

  // ----- what is fed, and what comes out

  /** Each call is offered the unread rest of a chunk; the end directive goes with the end of the target. */
  ghost predicate Faithful(feeds: seq<Feed>, target: seq<byte>, done: nat)
    decreases |feeds|
  {
    && done <= |target|
    && (feeds == [] ||
        var f := feeds[0];
        && f.offset == done
        && f.offered <= target[done..]
        && (f.directive == Finish <==> f.offered == target[done..])
        && f.consumed <= |f.offered|
        && Faithful(feeds[1..], target, done + f.consumed))
  }

  function Consumed(feeds: seq<Feed>): seq<byte>
    requires forall f :: f in feeds ==> f.consumed <= |f.offered|
  {
    if feeds == [] then [] else feeds[0].offered[..feeds[0].consumed] + Consumed(feeds[1..])
  }

  function Emitted(feeds: seq<Feed>): seq<byte> {
    if feeds == [] then [] else feeds[0].emitted + Emitted(feeds[1..])
  }

  lemma {:induction false} FaithfulConsumes(feeds: seq<Feed>, target: seq<byte>, done: nat)
    requires Faithful(feeds, target, done)
    ensures forall f :: f in feeds ==> f.consumed <= |f.offered|
    ensures Consumed(feeds) <= target[done..]
    decreases |feeds|
  {
    if feeds != [] {
      var next := done + feeds[0].consumed;
      FaithfulConsumes(feeds[1..], target, next);
      assert feeds == [feeds[0]] + feeds[1..];
      assert feeds[0].offered[..feeds[0].consumed] == target[done..next];
      assert target[done..] == target[done..next] + target[next..];
    }
  }

  lemma {:induction false} FeedsAreFaithful<S(!new)>(
      c: Encoder<S>, w: Reading<S>, k: Setup, s: S, target: seq<byte>, done: nat, stop: nat, out: seq<byte>)
    requires Encodes(c, w) && Stands(w, k, s, target, done, stop, out) && |out| <= w.bound(done)
    ensures Faithful(Feeds(c, w, k, s, target, done, stop, out), target, done)
    decreases |target| - done + w.bound(|target|) - |out|
  {
    Advance(c, w, k, s, target, done, stop, out);
    var r := Call(c, k, s, target, done, stop);
    var feed := Feed(done, target[done..stop], DirectiveFor(stop, |target|), r.consumed, r.emitted, r.code);
    match TurnOf(k, r, |target|, done, stop, out)
    case Halt(_) =>
      FaithfulCons(feed, [], target, done);
    case More(s', done', stop', out') =>
      FeedsAreFaithful(c, w, k, s', target, done', stop', out');
      FaithfulCons(feed, Feeds(c, w, k, s', target, done', stop', out'), target, done);
  }

  /** A run that succeeds has consumed all and returns all that was emitted. */
  lemma {:induction false} FeedsAreComplete<S(!new)>(
      c: Encoder<S>, w: Reading<S>, k: Setup, s: S, target: seq<byte>, done: nat, stop: nat, out: seq<byte>)
    requires Encodes(c, w) && Stands(w, k, s, target, done, stop, out) && |out| <= w.bound(done)
    requires Loop(c, w, k, s, target, done, stop, out).Ok?
    ensures var feeds := Feeds(c, w, k, s, target, done, stop, out);
            Covered(feeds, target, done) && Loop(c, w, k, s, target, done, stop, out).value == out + Emitted(feeds)
    decreases |target| - done + w.bound(|target|) - |out|
  {
    Advance(c, w, k, s, target, done, stop, out);
    var r := Call(c, k, s, target, done, stop);
    var feed := Feed(done, target[done..stop], DirectiveFor(stop, |target|), r.consumed, r.emitted, r.code);
    match TurnOf(k, r, |target|, done, stop, out)
    case Halt(_) =>
      FeedsCons(feed, [], target, done);
      assert r.emitted + [] == r.emitted;
    case More(s', done', stop', out') =>
      var rest := Feeds(c, w, k, s', target, done', stop', out');
      FeedsAreComplete(c, w, k, s', target, done', stop', out');
      FeedsCons(feed, rest, target, done);
      assert (out + r.emitted) + Emitted(rest) == out + (r.emitted + Emitted(rest));
  }

  /** The consumed parts reach the end of the target. */
  ghost predicate Covered(feeds: seq<Feed>, target: seq<byte>, done: nat)
    decreases |feeds|
  {
    if feeds == [] then done == |target| else Covered(feeds[1..], target, done + feeds[0].consumed)
  }

  lemma FeedsCons(feed: Feed, rest: seq<Feed>, target: seq<byte>, done: nat)
    ensures Emitted([feed] + rest) == feed.emitted + Emitted(rest)
    ensures Covered([feed] + rest, target, done) == Covered(rest, target, done + feed.consumed)
  {
    assert ([feed] + rest)[1..] == rest;
  }

  lemma FaithfulCons(feed: Feed, rest: seq<Feed>, target: seq<byte>, done: nat)
    requires done <= |target| && feed.offset == done
    requires feed.offered <= target[done..] && feed.consumed <= |feed.offered|
    requires feed.directive == Finish <==> |feed.offered| == |target| - done
    requires Faithful(rest, target, done + feed.consumed)
    ensures Faithful([feed] + rest, target, done)
  {
    assert ([feed] + rest)[1..] == rest;
  }

  lemma {:induction false} CoveredConsumesAll(feeds: seq<Feed>, target: seq<byte>, done: nat)
    requires Faithful(feeds, target, done) && Covered(feeds, target, done)
    ensures forall f :: f in feeds ==> f.consumed <= |f.offered|
    ensures Consumed(feeds) == target[done..]
    decreases |feeds|
  {
    FaithfulConsumes(feeds, target, done);
    if feeds != [] {
      var next := done + feeds[0].consumed;
      CoveredConsumesAll(feeds[1..], target, next);
      assert feeds[0].offered[..feeds[0].consumed] == target[done..next];
      assert target[done..] == target[done..next] + target[next..];
    }
  }

  lemma EncodeIsCoding<S(!new)>(c: Encoder<S>, w: Reading<S>, k: Setup, target: seq<byte>)
    requires Encodes(c, w) && k.Usable()
    ensures var r := Encode(c, w, k, target); r.Ok? ==> w.coded(target, r.value) && |r.value| <= k.limit
  {
    assert [] == target[..0];
    LoopIsCoding(c, w, k, c.init, target, 0, ChunkEnd(k, 0, |target|), []);
  }

  /**
   Feeding is lossless for every encoder within the contract: calls are offered consecutive unread
   parts of the target, the end directive exactly with its end, the parts taken join to the target
   and the output is everything emitted, a coding of the target, however the target was chunked.
   */
  lemma EncodeIsLossless<S(!new)>(c: Encoder<S>, w: Reading<S>,
                                  k: Setup, target: seq<byte>)
    requires Encodes(c, w) && k.Usable()
    ensures var r := Encode(c, w, k, target);
            var feeds := AllFeeds(c, w, k, target);
            && Faithful(feeds, target, 0)
            && (r.Ok? ==>
                  && (forall f :: f in feeds ==> f.consumed <= |f.offered|)
                  && Consumed(feeds) == target
                  && r.value == Emitted(feeds) && w.coded(target, r.value)
                  && |r.value| <= k.limit)
  {
    var stop := ChunkEnd(k, 0, |target|);
    assert [] == target[..0];
    FeedsAreFaithful(c, w, k, c.init, target, 0, stop, []);
    assert target[0..] == target;
    if Encode(c, w, k, target).Ok? {
      FeedsAreComplete(c, w, k, c.init, target, 0, stop, []);
      CoveredConsumesAll(AllFeeds(c, w, k, target), target, 0);
      EncodeIsCoding(c, w, k, target);
    }
  }

  lemma {:induction false} LoopIsCoding<S(!new)>(
      c: Encoder<S>, w: Reading<S>,
      k: Setup, s: S, target: seq<byte>, done: nat, stop: nat, out: seq<byte>)
    requires Encodes(c, w) && Stands(w, k, s, target, done, stop, out) && |out| <= w.bound(done)
    ensures var r := Loop(c, w, k, s, target, done, stop, out);
            r.Ok? ==> w.coded(target, r.value) && |r.value| <= k.limit && |r.value| <= w.bound(|target|)
    decreases |target| - done + w.bound(|target|) - |out|
  {
    Advance(c, w, k, s, target, done, stop, out);
    match TurnOf(k, Call(c, k, s, target, done, stop), |target|, done, stop, out)
    case Halt(_) =>
    case More(s', done', stop', out') => LoopIsCoding(c, w, k, s', target, done', stop', out');
  }

  // ----- the calls are the encoder's, and so are its errors

  /** The calls as the encoder answered them, one after the other, from the state `s`. */
  ghost predicate Answered<S>(c: Encoder<S>, room: nat, s: S, feeds: seq<Feed>)
    decreases |feeds|
  {
    feeds == [] ||
    var f := feeds[0];
    var r := c.step(s, f.offered, room, f.directive);
    && f.consumed == r.consumed && f.emitted == r.emitted && f.code == r.code
    && Answered(c, room, r.state, feeds[1..])
  }

  /** What a run comes to, by its last call: an error is the encoder's own, or the limit has been passed. */
  ghost predicate Concludes(feeds: seq<Feed>, limit: nat, out: seq<byte>, r: Result<seq<byte>>) {
    && feeds != []
    && var last := feeds[|feeds| - 1];
    && (forall i :: 0 <= i < |feeds| - 1 ==> feeds[i].code.Hint?)
    && match last.code
       case Error(code) => r == Err(if code == 64 then Alloc else Zstd(code))
       case Hint(more) =>
         if |out + Emitted(feeds)| > limit then r == Err(Limit)
         else more == 0 && last.directive == Finish && r == Ok(out + Emitted(feeds))
  }

  lemma ConcludesLater(feed: Feed, rest: seq<Feed>, limit: nat, out: seq<byte>, r: Result<seq<byte>>)
    requires feed.code.Hint? && Concludes(rest, limit, out + feed.emitted, r)
    ensures Concludes([feed] + rest, limit, out, r)
  {
    FeedsCons(feed, rest, [], 0);
    assert out + (feed.emitted + Emitted(rest)) == out + feed.emitted + Emitted(rest);
  }

  lemma {:induction false} FeedsConclude<S(!new)>(
      c: Encoder<S>, w: Reading<S>, k: Setup, s: S, target: seq<byte>, done: nat, stop: nat, out: seq<byte>)
    requires Encodes(c, w) && Stands(w, k, s, target, done, stop, out) && |out| <= w.bound(done)
    ensures Answered(c, k.room, s, Feeds(c, w, k, s, target, done, stop, out))
    ensures Concludes(Feeds(c, w, k, s, target, done, stop, out), k.limit, out, Loop(c, w, k, s, target, done, stop, out))
    decreases |target| - done + w.bound(|target|) - |out|
  {
    Advance(c, w, k, s, target, done, stop, out);
    var r := Call(c, k, s, target, done, stop);
    var feed := Feed(done, target[done..stop], DirectiveFor(stop, |target|), r.consumed, r.emitted, r.code);
    match TurnOf(k, r, |target|, done, stop, out)
    case Halt(_) =>
      FeedsCons(feed, [], target, done);
      assert r.emitted + [] == r.emitted;
    case More(s', done', stop', out') =>
      FeedsConclude(c, w, k, s', target, done', stop', out');
      ConcludesLater(feed, Feeds(c, w, k, s', target, done', stop', out'), k.limit, out,
                     Loop(c, w, k, s', target, done', stop', out'));
      AnsweredCons(c, k.room, s, feed, Feeds(c, w, k, s', target, done', stop', out'));
  }

  lemma AnsweredCons<S>(c: Encoder<S>, room: nat, s: S, feed: Feed, rest: seq<Feed>)
    requires var r := c.step(s, feed.offered, room, feed.directive);
             && feed.consumed == r.consumed && feed.emitted == r.emitted && feed.code == r.code
             && Answered(c, room, r.state, rest)
    ensures Answered(c, room, s, [feed] + rest)
  {
    assert ([feed] + rest)[1..] == rest;
  }

  /**
   Every call is answered by the encoder, from its initial state on, and the first error ends the run
   with that error's status; without one the run ends when all is sent, or with the limit status when
   more has been sent than the limit.
   */
  lemma EncodeIsConcluded<S(!new)>(c: Encoder<S>, w: Reading<S>, k: Setup, target: seq<byte>)
    requires Encodes(c, w) && k.Usable()
    ensures Answered(c, k.room, c.init, AllFeeds(c, w, k, target))
    ensures Concludes(AllFeeds(c, w, k, target), k.limit, [], Encode(c, w, k, target))
  {
    assert [] == target[..0];
    FeedsConclude(c, w, k, c.init, target, 0, ChunkEnd(k, 0, |target|), []);
  }

  // ----- when the bound is met

  /** Fed the target, and told its end where it ends, the encoder never fails by itself. */
  ghost predicate Infallible<S(!new)>(c: Encoder<S>, w: Reading<S>, target: seq<byte>) {
    forall s, input, room: nat, dir ::
      && w.open(s) && w.flow(s).fed + input <= target
      && (dir == Finish ==> w.flow(s).fed + input == target)
      ==> c.step(s, input, room, dir).code.Hint?
  }

  /** The same buffers with all the output that the encoder can send. */
  function Wide<S>(w: Reading<S>, k: Setup, target: seq<byte>): Setup {
    k.(limit := Max(k.limit, w.bound(|target|)))
  }

  /** A limit only decides whether a run gets to its end; it does not change what the run sends. */
  lemma {:induction false} LoopIsExact<S(!new)>(
      c: Encoder<S>, w: Reading<S>,
      k: Setup, s: S, target: seq<byte>, done: nat, stop: nat, out: seq<byte>)
    requires Encodes(c, w) && Infallible(c, w, target)
    requires Stands(w, k, s, target, done, stop, out) && |out| <= w.bound(done)
    ensures var whole := Loop(c, w, Wide(w, k, target), s, target, done, stop, out);
            && whole.Ok? && out <= whole.value
            && Loop(c, w, k, s, target, done, stop, out)
               == if |whole.value| <= k.limit then whole else Err(Limit)
    decreases |target| - done + w.bound(|target|) - |out|
  {
    var wide := Wide(w, k, target);
    Advance(c, w, k, s, target, done, stop, out);
    Advance(c, w, wide, s, target, done, stop, out);
    var r := Call(c, k, s, target, done, stop);
    assert target[..done] + target[done..stop] == target[..stop];
    assert target[..|target|] == target;
    match TurnOf(wide, r, |target|, done, stop, out)
    case Halt(_) =>
    case More(s', done', stop', out') =>
      assert Wide(w, wide, target) == wide;
      if |out'| <= k.limit {
        LoopIsExact(c, w, k, s', target, done', stop', out');
      } else {
        LoopIsExact(c, w, wide, s', target, done', stop', out');
      }
  }

  /** All that the encoder sends for a target when no limit stops it. */
  ghost function Whole<S(!new)>(c: Encoder<S>, w: Reading<S>, k: Setup, target: seq<byte>): (r: seq<byte>)
    requires Encodes(c, w) && Infallible(c, w, target) && k.Usable()
    ensures Encode(c, w, Wide(w, k, target), target) == Ok(r)
    ensures w.coded(target, r) && |r| <= w.bound(|target|)
  {
    assert [] == target[..0];
    var stop := ChunkEnd(k, 0, |target|);
    LoopIsExact(c, w, k, c.init, target, 0, stop, []);
    LoopIsCoding(c, w, Wide(w, k, target), c.init, target, 0, stop, []);
    Encode(c, w, Wide(w, k, target), target).value
  }

  /**
   With an encoder that does not fail, encoding succeeds exactly when all that the encoder sends fits
   the limit, and otherwise the limit status comes back.
   */
  lemma EncodeIsExact<S(!new)>(c: Encoder<S>, w: Reading<S>, k: Setup, target: seq<byte>)
    requires Encodes(c, w) && Infallible(c, w, target) && k.Usable()
    ensures var whole := Whole(c, w, k, target);
            Encode(c, w, k, target) == if |whole| <= k.limit then Ok(whole) else Err(Limit)
  {
    assert [] == target[..0];
    LoopIsExact(c, w, k, c.init, target, 0, ChunkEnd(k, 0, |target|), []);
  }

  /** An encoder that does not fail encodes all targets for which there is room. */
  lemma EncodeFits<S(!new)>(c: Encoder<S>, w: Reading<S>, k: Setup, target: seq<byte>)
    requires Encodes(c, w) && Infallible(c, w, target) && k.Usable() && w.bound(|target|) <= k.limit
    ensures Encode(c, w, k, target).Ok?
  {
    EncodeIsExact(c, w, k, target);
  }

  // ----- the methods

  /** The two loops stand between calls, with `goal` still to come out. */
  ghost predicate Running<S(!new)>(c: Encoder<S>, w: Reading<S>,
                                   k: Setup, s: S, target: seq<byte>, done: nat, stop: nat, sent: seq<byte>,
                                   goal: Result<seq<byte>>)
    requires Encodes(c, w)
  {
    && Stands(w, k, s, target, done, stop, sent) && |sent| <= w.bound(done) <= w.bound(|target|)
    && Loop(c, w, k, s, target, done, stop, sent) == goal
  }

  /** Unread target plus unsent output. */
  ghost function Ahead(bound: nat -> nat, target: seq<byte>, done: nat, sent: seq<byte>): int {
    |target| - done + bound(|target|) - |sent|
  }

  predicate Exits<S>(r: Reply<S>, end: nat, done: nat, stop: nat) {
    if stop == end then r.code == Hint(0) else done + r.consumed == stop
  }

  /** What one call leaves of the run, in the terms of the two nested loops. */
  lemma CallAndRest<S(!new)>(c: Encoder<S>, w: Reading<S>,
                             k: Setup, s: S, target: seq<byte>, done: nat, stop: nat, out: seq<byte>,
                             goal: Result<seq<byte>>)
    requires Encodes(c, w) && Running(c, w, k, s, target, done, stop, out, goal)
    ensures done <= stop <= |target| && |out| <= k.limit
    ensures var r := Call(c, k, s, target, done, stop);
            var done', out' := done + r.consumed, out + r.emitted;
            && done' <= stop
            && (r.code.Error? ==> goal == Err(ZStatus(r.code.code)))
            && (r.code.Hint? && |out'| > k.limit ==> goal == Err(Limit))
            && (r.code.Hint? && |out'| <= k.limit && Exits(r, |target|, done, stop) && stop == |target| ==>
                  goal == Ok(out'))
            && (r.code.Hint? && |out'| <= k.limit && Exits(r, |target|, done, stop) && stop < |target| ==>
                  Running(c, w, k, r.state, target, stop, ChunkEnd(k, stop, |target|), out', goal))
            && (r.code.Hint? && |out'| <= k.limit && !Exits(r, |target|, done, stop) ==>
                  && Running(c, w, k, r.state, target, done', stop, out', goal)
                  && 0 <= Ahead(w.bound, target, done', out') < Ahead(w.bound, target, done, out))
  {
    Advance(c, w, k, s, target, done, stop, out);
  }

  /**
   One call of either encoder, on what is left of a chunk of its input; `exit` says that the chunk is
   done with.
   */
  method AskEncoder<S(!new)>(c: Encoder<S>, ghost w: Reading<S>, k: Setup, s: S, ghost input: seq<byte>,
                             chunk: seq<byte>, last: bool, ghost pos: nat, ghost stop: nat,
                             taken: nat, ghost sent: seq<byte>, ghost goal: Result<seq<byte>>)
      returns (a: Reply<S>, next: nat, exit: bool, ghost grown: seq<byte>)
    requires Encodes(c, w) && Running(c, w, k, s, input, pos + taken, stop, sent, goal)
    requires pos + taken <= stop <= |input| && chunk == input[pos..stop] && last == (stop == |input|)
    ensures grown == sent + a.emitted
    ensures a.code.Error? ==> goal == Err(ZStatus(a.code.code))
    ensures a.code.Hint? && |grown| > k.limit ==> goal == Err(Limit)
    ensures a.code.Hint? && |grown| <= k.limit && exit && last ==> goal == Ok(grown)
    ensures a.code.Hint? && |grown| <= k.limit && exit && !last ==>
              Running(c, w, k, a.state, input, stop, ChunkEnd(k, stop, |input|), grown, goal)
    ensures a.code.Hint? && |grown| <= k.limit && !exit ==>
              && pos + next <= stop
              && Running(c, w, k, a.state, input, pos + next, stop, grown, goal)
              && 0 <= Ahead(w.bound, input, pos + next, grown) < Ahead(w.bound, input, pos + taken, sent)
  {
    CallAndRest(c, w, k, s, input, pos + taken, stop, sent, goal);
    assert chunk[taken..] == input[pos + taken..stop];
    a := c.step(s, chunk[taken..], k.room, if last then Finish else Continue);
    next, grown := taken + a.consumed, sent + a.emitted;
    exit := if last then a.code == Hint(0) else next == |chunk|;
  }

  /** The limit check and the append of one call's output. */
  method Collect(out: Growable, limit: nat, emitted: seq<byte>, ghost sent: seq<byte>) returns (r: Result<()>)
    requires out.Valid() && out.contents == Cells(sent) && |sent| <= limit
    modifies out`size, out`data, out`capacity, out`copied, out`peak, out`contents, out.data, out.heap
    ensures out.Valid()
    ensures out.heap.live == old(out.heap.live) - old(out.Block()) + out.Block()
    ensures out.data == old(out.data) || fresh(out.Block())
    ensures r.Ok? ==> out.contents == Cells(sent + emitted) && |sent + emitted| <= limit
    ensures r.Err? ==> (r.status == Limit && |sent + emitted| > limit) || (r.status == Alloc && out.heap.Denied())
  {
    if !(|emitted| <= limit - out.size) {
      return Err(Limit);
    }
    var ok := out.Append(emitted);
    if !ok {
      return Err(Alloc);
    }
    assert Cells(sent) + Cells(emitted) == Cells(sent + emitted);
    return Ok(());
  }

  /** One call of the inner loop, and what came out goes into the buffer. */
  method EncodeCall<S(!new)>(out: Growable, c: Encoder<S>, ghost w: Reading<S>, k: Setup, s: S, ghost target: seq<byte>,
                             chunk: seq<byte>, last: bool, ghost pos: nat, ghost stop: nat, taken: nat,
                             ghost sent: seq<byte>, ghost goal: Result<seq<byte>>)
      returns (r: Result<S>, next: nat, exit: bool, ghost grown: seq<byte>)
    requires Encodes(c, w) && Running(c, w, k, s, target, pos + taken, stop, sent, goal)
    requires pos + taken <= stop <= |target| && chunk == target[pos..stop] && last == (stop == |target|)
    requires out.Valid() && out.contents == Cells(sent)
    modifies out`size, out`data, out`capacity, out`copied, out`peak, out`contents, out.data, out.heap
    ensures out.Valid()
    ensures out.heap.live == old(out.heap.live) - old(out.Block()) + out.Block()
    ensures out.data == old(out.data) || fresh(out.Block())
    ensures r.Ok? ==> out.contents == Cells(grown)
    ensures r.Err? ==> goal == Err(r.status) || (r.status == Alloc && out.heap.Denied())
    ensures r.Ok? && exit && last ==> goal == Ok(grown)
    ensures r.Ok? && exit && !last ==>
              Running(c, w, k, r.value, target, stop, ChunkEnd(k, stop, |target|), grown, goal)
    ensures r.Ok? && !exit ==>
              && pos + next <= stop
              && Running(c, w, k, r.value, target, pos + next, stop, grown, goal)
              && 0 <= Ahead(w.bound, target, pos + next, grown) < Ahead(w.bound, target, pos + taken, sent)
  {
    var a;
    a, next, exit, grown := AskEncoder(c, w, k, s, target, chunk, last, pos, stop, taken, sent, goal);
    if a.code.Error? {
      return Err(ZStatus(a.code.code)), next, exit, grown;
    }
    var kept := Collect(out, k.limit, a.emitted, sent);
    if kept.Err? {
      return Err(kept.status), next, exit, grown;
    }
    return Ok(a.state), next, exit, grown;
  }

  /** The inner loop: calls until the chunk is taken, or the frame is complete if it is the last. */
  method EncodeChunk<S(!new)>(out: Growable, c: Encoder<S>, ghost w: Reading<S>, k: Setup, start: S,
                              ghost target: seq<byte>, chunk: seq<byte>, last: bool, ghost pos: nat, ghost stop: nat,
                              ghost before: seq<byte>, ghost goal: Result<seq<byte>>)
      returns (r: Result<S>, ghost sent: seq<byte>)
    requires Encodes(c, w) && Running(c, w, k, start, target, pos, stop, before, goal)
    requires pos <= stop <= |target| && chunk == target[pos..stop] && last == (stop == |target|)
    requires out.Valid() && out.contents == Cells(before)
    modifies out`size, out`data, out`capacity, out`copied, out`peak, out`contents, out.data, out.heap
    ensures out.Valid()
    ensures out.heap.live == old(out.heap.live) - old(out.Block()) + out.Block()
    ensures out.data == old(out.data) || fresh(out.Block())
    ensures r.Ok? ==> out.contents == Cells(sent)
    ensures r.Err? ==> goal == Err(r.status) || (r.status == Alloc && out.heap.Denied())
    ensures r.Ok? && last ==> goal == Ok(sent)
    ensures r.Ok? && !last ==>
              Running(c, w, k, r.value, target, stop, ChunkEnd(k, stop, |target|), sent, goal)
  {
    var s := start;
    var taken: nat := 0;
    sent := before;
    while true
      invariant pos + taken <= stop
      invariant Running(c, w, k, s, target, pos + taken, stop, sent, goal)
      invariant out.Valid() && out.contents == Cells(sent)
      invariant out.heap.live == old(out.heap.live) - old(out.Block()) + out.Block()
      invariant out.data == old(out.data) || fresh(out.Block())
      decreases Ahead(w.bound, target, pos + taken, sent)
    {
      var next, exit;
      r, next, exit, sent := EncodeCall(out, c, w, k, s, target, chunk, last, pos, stop, taken, sent, goal);
      if r.Err? || exit {
        return;
      }
      s, taken := r.value, next;
    }
  }

  /** The outer loop, with its buffer; on failure the buffer's destructor has run. */
  method Body<S(!new)>(heap: Heap, c: Encoder<S>, ghost w: Reading<S>, k: Setup, target: seq<byte>)
      returns (r: Result<Growable>)
    requires Encodes(c, w) && k.Usable()
    modifies heap
    ensures r.Ok? ==>
              && var out := r.value;
              && fresh(out) && fresh(out.Block()) && out.heap == heap && out.Valid()
              && heap.live == old(heap.live) + out.Block()
              && Encode(c, w, k, target).Ok?
              && out.contents == Cells(Encode(c, w, k, target).value)
    ensures r.Err? ==> heap.live == old(heap.live)
    ensures r.Err? ==>
              || (r.status == Alloc && heap.Denied())
              || Encode(c, w, k, target) == Err(r.status)
  {
    var out := new Growable(heap);
    var s := c.init;
    var pos: nat := 0;
    var stop := ChunkEnd(k, 0, |target|);
    ghost var sent: seq<byte> := [];
    ghost var goal := Encode(c, w, k, target);
    assert [] == target[..0];
    while true
      invariant pos <= stop <= |target| && (pos == stop ==> stop == |target|)
      invariant Running(c, w, k, s, target, pos, stop, sent, goal)
      invariant fresh(out) && fresh(out.Block()) && out.heap == heap && out.Valid()
      invariant out.contents == Cells(sent)
      invariant heap.live == old(heap.live) + out.Block()
      decreases |target| - pos, |target| - stop
    {
      var a, now := EncodeChunk(out, c, w, k, s, target, target[pos..stop], stop == |target|, pos, stop, sent, goal);
      if a.Err? {
        out.Destroy();
        return Err(a.status);
      }
      if stop == |target| {
        return Ok(out);
      }
      s, pos, stop, sent := a.value, stop, ChunkEnd(k, stop, |target|), now;
    }
  }

  const CODEC_SETUP := Setup(CHUNK, CHUNK, PAYLOAD_MAX)
  const FRAME_SETUP := Setup(CHUNK, CHUNK, FRAME_MAX)
}
