/** The compressor that HDiffPatch calls on each part of a diff. */
module EncoderPlugin {
  import opened Basics
  import opened Codec
  import opened Streams
  import opened Encoding

  /** How a call ends: all of the frame is in the sink, or the sink gave up, or there was an error. */
  datatype Ending = Written(n: nat) | Abandoned | Failed(status: Status)

  /** Which writes a sink turns down, by position and bytes; an `Output` turns down none. */
  type Refusal = (nat, seq<byte>) -> bool

  ghost predicate TakesAll(refuses: Refusal) {
    forall pos: nat, bytes :: !refuses(pos, bytes)
  }

  /** How a compression ends, and what the sink has taken by then. */
  datatype Outcome = Outcome(ending: Ending, sent: seq<byte>)

  // ----- the loops

  /** Both loops: a call, then a write of what came out, which the sink may turn down. */
  ghost function Run<S(!new)>(c: Encoder<S>, w: Reading<S>, k: Setup, refuses: Refusal,
                              s: S, input: seq<byte>, done: nat, stop: nat, sent: seq<byte>): Outcome
    requires Encodes(c, w) && Stands(w, k, s, input, done, stop, sent) && |sent| <= w.bound(done)
    decreases |input| - done + w.bound(|input|) - |sent|
  {
    Advance(c, w, k, s, input, done, stop, sent);
    var r := Call(c, k, s, input, done, stop);
    if r.code.Hint? && refuses(|sent|, r.emitted) then Outcome(Abandoned, sent)
    else
      match TurnOf(k, r, |input|, done, stop, sent)
      case Halt(Err(status)) => Outcome(Failed(status), sent)
      case Halt(Ok(whole)) => Outcome(Written(|whole|), whole)
      case More(s', done', stop', sent') => Run(c, w, k, refuses, s', input, done', stop', sent')
  }

  ghost function Compressed<S(!new)>(c: Encoder<S>, w: Reading<S>, k: Setup, refuses: Refusal, input: seq<byte>): Outcome
    requires Encodes(c, w) && k.Usable()
  {
    assert [] == input[..0];
    Run(c, w, k, refuses, c.init, input, 0, ChunkEnd(k, 0, |input|), [])
  }

  /** The sink turns down the write of the `i`th call, which begins at `at` plus all that came before. */
  ghost predicate RefusedAt(refuses: Refusal, at: nat, feeds: seq<Feed>, i: nat)
    requires i < |feeds|
  {
    refuses(at + |Emitted(feeds[..i])|, feeds[i].emitted)
  }

  lemma RefusedLater(refuses: Refusal, at: nat, feed: Feed, rest: seq<Feed>, i: nat)
    requires i < |rest|
    ensures Emitted(([feed] + rest)[..i + 1]) == feed.emitted + Emitted(rest[..i])
    ensures RefusedAt(refuses, at, [feed] + rest, i + 1) == RefusedAt(refuses, at + |feed.emitted|, rest, i)
  {
    assert ([feed] + rest)[..i + 1] == [feed] + rest[..i];
    assert ([feed] + rest[..i])[1..] == rest[..i];
  }

  /** The run of the encoder, cut short by the first write that the sink turns down. */
  ghost predicate CutAt(refuses: Refusal, out: seq<byte>, feeds: seq<Feed>, whole: Result<seq<byte>>, o: Outcome) {
    match o.ending
    case Written(n) =>
      whole == Ok(o.sent) && n == |o.sent| && forall i: nat :: i < |feeds| ==> !RefusedAt(refuses, |out|, feeds, i)
    case Failed(status) => whole == Err(status)
    case Abandoned =>
      exists i: nat :: i < |feeds| && RefusedAt(refuses, |out|, feeds, i) && o.sent == out + Emitted(feeds[..i])
  }

  lemma CutLater(refuses: Refusal, out: seq<byte>, feed: Feed, rest: seq<Feed>, whole: Result<seq<byte>>, o: Outcome)
    requires CutAt(refuses, out + feed.emitted, rest, whole, o) && !refuses(|out|, feed.emitted)
    ensures CutAt(refuses, out, [feed] + rest, whole, o)
  {
    var feeds := [feed] + rest;
    match o.ending
    case Failed(_) =>
    case Written(_) =>
      forall i: nat | i < |feeds| ensures !RefusedAt(refuses, |out|, feeds, i) {
        if i > 0 {
          RefusedLater(refuses, |out|, feed, rest, i - 1);
        }
      }
    case Abandoned =>
      var i: nat :| i < |rest| && RefusedAt(refuses, |out + feed.emitted|, rest, i)
                    && o.sent == out + feed.emitted + Emitted(rest[..i]);
      RefusedLater(refuses, |out|, feed, rest, i);
      assert out + feed.emitted + Emitted(rest[..i]) == out + Emitted(feeds[..i + 1]);
      assert RefusedAt(refuses, |out|, feeds, i + 1);
  }

  lemma {:induction false} RunIsCut<S(!new)>(c: Encoder<S>, w: Reading<S>, k: Setup, refuses: Refusal,
                                             s: S, input: seq<byte>, done: nat, stop: nat, sent: seq<byte>)
    requires Encodes(c, w) && Stands(w, k, s, input, done, stop, sent) && |sent| <= w.bound(done)
    ensures CutAt(refuses, sent, Feeds(c, w, k, s, input, done, stop, sent), Loop(c, w, k, s, input, done, stop, sent),
                  Run(c, w, k, refuses, s, input, done, stop, sent))
    decreases |input| - done + w.bound(|input|) - |sent|
  {
    Advance(c, w, k, s, input, done, stop, sent);
    var r := Call(c, k, s, input, done, stop);
    var feed := Feed(done, input[done..stop], DirectiveFor(stop, |input|), r.consumed, r.emitted, r.code);
    var feeds := Feeds(c, w, k, s, input, done, stop, sent);
    if r.code.Hint? && refuses(|sent|, r.emitted) {
      assert feeds[0] == feed && sent + Emitted(feeds[..0]) == sent;
      assert RefusedAt(refuses, |sent|, feeds, 0);
    } else {
      match TurnOf(k, r, |input|, done, stop, sent)
      case Halt(_) =>
      case More(s', done', stop', sent') =>
        RunIsCut(c, w, k, refuses, s', input, done', stop', sent');
        CutLater(refuses, sent, feed, Feeds(c, w, k, s', input, done', stop', sent'),
                 Loop(c, w, k, s', input, done', stop', sent'),
                 Run(c, w, k, refuses, s', input, done', stop', sent'));
    }
  }

  /**
   A compression is the run of the encoder, cut short by nothing but a write that the sink turned
   down: a length is returned only if all of the run has been written, an error only if the run ends
   in it, and it is abandoned only at such a write, with all before it in the sink.
   */
  lemma CompressionIsExact<S(!new)>(c: Encoder<S>, w: Reading<S>, k: Setup, refuses: Refusal, input: seq<byte>)
    requires Encodes(c, w) && k.Usable()
    ensures CutAt(refuses, [], AllFeeds(c, w, k, input), Encode(c, w, k, input), Compressed(c, w, k, refuses, input))
  {
    assert [] == input[..0];
    RunIsCut(c, w, k, refuses, c.init, input, 0, ChunkEnd(k, 0, |input|), []);
  }

  /**
   With a sink that takes every write, an encoder that does not fail and room for its bound, the whole
   frame is written.
   */
  lemma CompressionIsWritten<S(!new)>(c: Encoder<S>, w: Reading<S>, k: Setup, refuses: Refusal, input: seq<byte>)
    requires Encodes(c, w) && Infallible(c, w, input) && k.Usable() && w.bound(|input|) <= k.limit
    requires TakesAll(refuses)
    ensures var whole := Whole(c, w, k, input);
            Compressed(c, w, k, refuses, input) == Outcome(Written(|whole|), whole)
  {
    CompressionIsExact(c, w, k, refuses, input);
    EncodeIsExact(c, w, k, input);
  }

  // ----- the methods

  /** The sink holds `sent` from position 0 on, over what was there before. */
  ghost predicate Begun(sink: Output, file: seq<byte>, sent: seq<byte>)
    reads sink, sink.bytes, sink.bytes.heap, sink.bytes.data
  {
    sink.Valid() && sink.file == WriteAt(file, 0, sent)
  }

  /** The block of the sink may have been replaced; nothing else has come or gone. */
  twostate predicate Owned(sink: Output)
    reads sink.bytes, sink.bytes.heap
  {
    && sink.bytes.heap.live == old(sink.bytes.heap.live) - old(sink.bytes.Block()) + sink.bytes.Block()
    && (sink.bytes.data == old(sink.bytes.data) || fresh(sink.bytes.Block()))
  }

  /** All that was sent is in the sink, and the call ends as it has to, unless memory was refused. */
  twostate predicate Delivered(sink: Output, new goal: Outcome, new r: Ending, new sent: seq<byte>)
    reads sink, sink.bytes, sink.bytes.heap, sink.bytes.data
  {
    && Begun(sink, old(sink.file), sent) && Owned(sink)
    && (goal == Outcome(r, sent) || (r == Failed(Alloc) && sink.bytes.heap.Denied()))
  }

  /** Puts the output of one call behind what is there. */
  method PutBehind(sink: Output, written: nat, emitted: seq<byte>, ghost file: seq<byte>, ghost sent: seq<byte>)
      returns (r: Result<()>)
    requires Begun(sink, file, sent) && written == |sent|
    modifies sink, sink.bytes, sink.bytes.heap, sink.bytes.data
    ensures Begun(sink, file, if r.Ok? then sent + emitted else sent) && Owned(sink)
    ensures r.Ok? ==> |sent + emitted| <= sink.limit
    ensures r.Err? ==>
              || (r.status == Limit && |sent + emitted| > sink.limit)
              || (r.status == Alloc && sink.bytes.heap.Denied())
  {
    WritesCompose(file, 0, sent, emitted);
    r := sink.Put(written, emitted);
  }

  /** The two loops stand between calls, with `goal` still to come out. */
  ghost predicate Compressing<S(!new)>(c: Encoder<S>, w: Reading<S>, k: Setup, refuses: Refusal,
                                       s: S, input: seq<byte>, done: nat, stop: nat, sent: seq<byte>, goal: Outcome)
    requires Encodes(c, w)
  {
    && Stands(w, k, s, input, done, stop, sent) && |sent| <= w.bound(done) <= w.bound(|input|)
    && Run(c, w, k, refuses, s, input, done, stop, sent) == goal
  }

  /** One call on what is left of the chunk; `exit` says that the chunk is done with. */
  method AskEncoder<S(!new)>(c: Encoder<S>, ghost w: Reading<S>, k: Setup, ghost refuses: Refusal,
                             s: S, ghost input: seq<byte>,
                             chunk: seq<byte>, last: bool, ghost pos: nat, ghost stop: nat,
                             taken: nat, ghost sent: seq<byte>, ghost goal: Outcome)
      returns (a: Reply<S>, next: nat, exit: bool, ghost grown: seq<byte>)
    requires Encodes(c, w) && Compressing(c, w, k, refuses, s, input, pos + taken, stop, sent, goal)
    requires pos + taken <= stop <= |input| && chunk == input[pos..stop] && last == (stop == |input|)
    ensures grown == sent + a.emitted
    ensures a.code.Error? ==> goal == Outcome(Failed(ZStatus(a.code.code)), sent)
    ensures a.code.Hint? && refuses(|sent|, a.emitted) ==> goal == Outcome(Abandoned, sent)
    ensures a.code.Hint? && !refuses(|sent|, a.emitted) && |grown| > k.limit ==> goal == Outcome(Failed(Limit), sent)
    ensures a.code.Hint? && !refuses(|sent|, a.emitted) && |grown| <= k.limit && exit && last ==>
              goal == Outcome(Written(|grown|), grown)
    ensures a.code.Hint? && !refuses(|sent|, a.emitted) && |grown| <= k.limit && exit && !last ==>
              Compressing(c, w, k, refuses, a.state, input, stop, ChunkEnd(k, stop, |input|), grown, goal)
    ensures a.code.Hint? && !refuses(|sent|, a.emitted) && |grown| <= k.limit && !exit ==>
              && pos + next <= stop
              && Compressing(c, w, k, refuses, a.state, input, pos + next, stop, grown, goal)
              && 0 <= Ahead(w.bound, input, pos + next, grown) < Ahead(w.bound, input, pos + taken, sent)
  {
    Advance(c, w, k, s, input, pos + taken, stop, sent);
    assert chunk[taken..] == input[pos + taken..stop];
    a := c.step(s, chunk[taken..], k.room, if last then Finish else Continue);
    next, grown := taken + a.consumed, sent + a.emitted;
    exit := if last then a.code == Hint(0) else next == |chunk|;
  }

  /** One call, and what came out goes into the sink. */
  method PluginCall<S(!new)>(sink: Output, refuses: Refusal, c: Encoder<S>, ghost w: Reading<S>, k: Setup, s: S,
                             ghost input: seq<byte>, ghost file: seq<byte>,
                             chunk: seq<byte>, last: bool, ghost pos: nat, ghost stop: nat,
                             taken: nat, written: nat, ghost sent: seq<byte>, ghost goal: Outcome)
      returns (r: Ending, state: S, next: nat, exit: bool, ghost grown: seq<byte>)
    requires Encodes(c, w) && Compressing(c, w, k, refuses, s, input, pos + taken, stop, sent, goal)
    requires k.limit == sink.limit
    requires pos + taken <= stop <= |input| && chunk == input[pos..stop] && last == (stop == |input|)
    requires Begun(sink, file, sent) && written == |sent|
    modifies sink, sink.bytes, sink.bytes.heap, sink.bytes.data
    ensures Begun(sink, file, grown) && Owned(sink)
    ensures !r.Written? ==> goal == Outcome(r, grown) || (r == Failed(Alloc) && sink.bytes.heap.Denied())
    ensures r.Written? ==> r.n == |grown|
    ensures r.Written? && exit && last ==> goal == Outcome(r, grown)
    ensures r.Written? && exit && !last ==>
              Compressing(c, w, k, refuses, state, input, stop, ChunkEnd(k, stop, |input|), grown, goal)
    ensures r.Written? && !exit ==>
              && pos + next <= stop
              && Compressing(c, w, k, refuses, state, input, pos + next, stop, grown, goal)
              && 0 <= Ahead(w.bound, input, pos + next, grown) < Ahead(w.bound, input, pos + taken, sent)
  {
    var a;
    ghost var more;
    a, next, exit, more := AskEncoder(c, w, k, refuses, s, input, chunk, last, pos, stop, taken, sent, goal);
    state, grown := a.state, sent;
    if a.code.Error? {
      return Failed(ZStatus(a.code.code)), state, next, exit, grown;
    }
    if refuses(written, a.emitted) {
      return Abandoned, state, next, exit, grown;
    }
    var put := PutBehind(sink, written, a.emitted, file, sent);
    if put.Err? {
      return Failed(put.status), state, next, exit, grown;
    }
    return Written(written + |a.emitted|), state, next, exit, more;
  }

  /** The inner loop: calls until the chunk is taken, or the frame is complete if it is the last. */
  method PluginChunk<S(!new)>(sink: Output, refuses: Refusal, c: Encoder<S>, ghost w: Reading<S>, k: Setup, start: S,
                              ghost input: seq<byte>, ghost file: seq<byte>,
                              chunk: seq<byte>, last: bool, ghost pos: nat, ghost stop: nat,
                              offset: nat, ghost before: seq<byte>, ghost goal: Outcome)
      returns (r: Ending, s: S, ghost sent: seq<byte>)
    requires Encodes(c, w) && Compressing(c, w, k, refuses, start, input, pos, stop, before, goal)
    requires k.limit == sink.limit
    requires pos <= stop <= |input| && chunk == input[pos..stop] && last == (stop == |input|)
    requires Begun(sink, file, before) && offset == |before|
    modifies sink, sink.bytes, sink.bytes.heap, sink.bytes.data
    ensures Begun(sink, file, sent) && Owned(sink)
    ensures !r.Written? || last ==> goal == Outcome(r, sent) || (r == Failed(Alloc) && sink.bytes.heap.Denied())
    ensures r.Written? ==> r.n == |sent|
    ensures r.Written? && !last ==>
              Compressing(c, w, k, refuses, s, input, stop, ChunkEnd(k, stop, |input|), sent, goal)
  {
    s, sent := start, before;
    var taken, written: nat := 0, offset;
    while true
      invariant pos + taken <= stop && written == |sent|
      invariant Compressing(c, w, k, refuses, s, input, pos + taken, stop, sent, goal)
      invariant Begun(sink, file, sent) && Owned(sink)
      decreases Ahead(w.bound, input, pos + taken, sent)
    {
      var next, exit;
      r, s, next, exit, sent :=
        PluginCall(sink, refuses, c, w, k, s, input, file, chunk, last, pos, stop, taken, written, sent, goal);
      if !r.Written? || exit {
        return;
      }
      taken, written := next, r.n;
    }
  }

  /** The outer loop over chunks of the encoder's own size. */
  method Loops<S(!new)>(sink: Output, refuses: Refusal, c: Encoder<S>, ghost w: Reading<S>, k: Setup, input: seq<byte>)
      returns (r: Ending, ghost sent: seq<byte>)
    requires Encodes(c, w) && k.Usable() && k.limit == sink.limit
    requires sink.Valid()
    modifies sink, sink.bytes, sink.bytes.heap, sink.bytes.data
    ensures Delivered(sink, Compressed(c, w, k, refuses, input), r, sent)
  {
    var s := c.init;
    var read, written: nat := 0, 0;
    sent := [];
    ghost var file := sink.file;
    ghost var goal := Compressed(c, w, k, refuses, input);
    assert [] == input[..0];
    while true
      invariant read <= |input| && written == |sent| && (read == |input| ==> read == 0)
      invariant Compressing(c, w, k, refuses, s, input, read, ChunkEnd(k, read, |input|), sent, goal)
      invariant Begun(sink, file, sent) && Owned(sink)
      decreases |input| - read
    {
      var next := ChunkEnd(k, read, |input|);
      var chunk := ReadAt(input, read, next - read);
      var last := next == |input|;
      var a, state, now :=
        PluginChunk(sink, refuses, c, w, k, s, input, file, chunk.get, last, read, next, written, sent, goal);
      sent := now;
      if !a.Written? || last {
        return a, sent;
      }
      s, read, written := state, next, a.n;
    }
  }

  /** The output buffer around the loops, freed however those end. */
  method WithOutput<S(!new)>(sink: Output, refuses: Refusal, c: Encoder<S>, ghost w: Reading<S>, k: Setup,
                             input: seq<byte>)
      returns (r: Ending, ghost sent: seq<byte>)
    requires Encodes(c, w) && k.Usable() && k.limit == sink.limit
    requires sink.Valid()
    modifies sink, sink.bytes, sink.bytes.heap, sink.bytes.data
    ensures Delivered(sink, Compressed(c, w, k, refuses, input), r, sent)
  {
    r, sent := Failed(Alloc), [];
    var heap := sink.bytes.heap;
    var output := heap.Realloc(null, k.room);
    if output != null {
      r, sent := Loops(sink, refuses, c, w, k, input);
      heap.Free(output);
    }
  }

  /** The chunk buffer around that. */
  method WithInput<S(!new)>(sink: Output, refuses: Refusal, c: Encoder<S>, ghost w: Reading<S>, k: Setup,
                             input: seq<byte>)
      returns (r: Ending, ghost sent: seq<byte>)
    requires Encodes(c, w) && k.Usable() && k.limit == sink.limit
    requires sink.Valid()
    modifies sink, sink.bytes, sink.bytes.heap, sink.bytes.data
    ensures Delivered(sink, Compressed(c, w, k, refuses, input), r, sent)
  {
    r, sent := Failed(Alloc), [];
    var heap := sink.bytes.heap;
    var chunk := heap.Realloc(null, k.chunk);
    if chunk != null {
      r, sent := WithOutput(sink, refuses, c, w, k, input);
      heap.Free(chunk);
    }
  }

  /** The context around that. */
  method WithContext<S(!new)>(sink: Output, refuses: Refusal, c: Encoder<S>, ghost w: Reading<S>, k: Setup,
                              input: seq<byte>)
      returns (r: Ending, ghost sent: seq<byte>)
    requires Encodes(c, w) && k.Usable() && k.limit == sink.limit
    requires sink.Valid()
    modifies sink, sink.bytes, sink.bytes.heap, sink.bytes.data
    ensures Delivered(sink, Compressed(c, w, k, refuses, input), r, sent)
  {
    r, sent := Failed(Alloc), [];
    var heap := sink.bytes.heap;
    var ctx := heap.Realloc(null, 1);
    if ctx != null {
      r, sent := WithInput(sink, refuses, c, w, k, input);
      heap.Free(ctx);
    }
  }

  /**
   `compress` on a sink.  What is in the sink is what it has taken, from position 0 over whatever was
   there; the ending is that of the run, or due to refused memory.  Its own memory is freed however it
   ends.  If nothing is refused and nothing fails, the whole frame is there and its length comes back.
   */
  method Compress<S(!new)>(sink: Output, refuses: Refusal, c: Encoder<S>, ghost w: Reading<S>, k: Setup,
                           input: seq<byte>)
      returns (r: Ending, ghost sent: seq<byte>)
    requires Encodes(c, w) && k.Usable() && k.limit == sink.limit
    requires sink.Valid()
    modifies sink, sink.bytes, sink.bytes.heap, sink.bytes.data
    ensures Delivered(sink, Compressed(c, w, k, refuses, input), r, sent)
    ensures Infallible(c, w, input) && w.bound(|input|) <= k.limit && TakesAll(refuses) && !sink.bytes.heap.Denied() ==>
              var whole := Whole(c, w, k, input);
              r == Written(|whole|) && sink.file == WriteAt(old(sink.file), 0, whole)
  {
    if Infallible(c, w, input) && w.bound(|input|) <= k.limit && TakesAll(refuses) {
      CompressionIsWritten(c, w, k, refuses, input);
    }
    r, sent := WithContext(sink, refuses, c, w, k, input);
  }
}
