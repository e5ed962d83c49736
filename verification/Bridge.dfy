/** The C entry points of the bridge: who owns what after a call, and what a round trip returns. */
module Bridge {
  import opened Basics
  import opened Script
  import opened Codec
  import opened Buffers
  import opened Windows
  import opened Options
  import Encoding
  import SingleFrame
  import FrameDecoding

  /** The zstd library: contexts configured for a call, and what it says about frames and parameters. */
  datatype Library<!E, !D> = Library(
    encoder: (Params, nat, seq<byte>) -> Encoding.Encoder<E>,    // parameters, pledged size, prefix
    decoder: (nat, seq<byte>) -> Decoder<D>,                     // largest window log, prefix
    header: seq<byte> -> SingleFrame.FrameHeader,
    claimed: seq<byte> -> nat,
    automatic: (int, nat, nat) -> CParams,                       // level, source and dictionary size
    adjust: Adjust)

  /** What the library does, for the proofs: how its encoders and decoders are read, and its scripts. */
  datatype Theory<!E, !D> = Theory(
    reading: (Params, nat, seq<byte>) -> Encoding.Reading<E>,
    point: D -> Point,
    script: (nat, seq<byte>) -> Script)

  ghost predicate Correct<E(!new), D(!new)>(lib: Library<E, D>, th: Theory<E, D>) {
    && (forall p, n: nat, b :: Encoding.Encodes(lib.encoder(p, n, b), th.reading(p, n, b)))
    && (forall w: nat, b :: Decodes(lib.decoder(w, b), th.point, th.script(w, b)))
  }

  ghost predicate Decodes<D(!new)>(d: Decoder<D>, abs: D -> Point, script: Script) {
    Follows(d, abs, script) && Progresses(d, abs, script) && Prompt(d, abs, script) && Opens(script)
  }

  /** Encoders that are fed what was pledged never fail by themselves. */
  ghost predicate Reliable<E(!new), D(!new)>(lib: Library<E, D>, th: Theory<E, D>) {
    forall p, b, target: seq<byte> ::
      Encoding.Infallible(lib.encoder(p, |target|, b), th.reading(p, |target|, b), target)
  }

  /** The largest window of a frame; without a prefix it also shrinks to the size of the content. */
  function WindowBound(p: Params, n: nat, b: seq<byte>): nat {
    var asked := if p.window <= 0 then Pow2(27) else Pow2(p.window);
    if b == [] then Min(asked, Max(1024, RoundUp(n))) else asked
  }

  /** The frame says what it is, and decodes to what went in wherever its window is admitted. */
  ghost predicate FrameOf<E, D>(lib: Library<E, D>, th: Theory<E, D>, p: Params, b: seq<byte>, data: seq<byte>,
                               f: seq<byte>) {
    && lib.header(f).Parsed? && lib.header(f).standard
    && (lib.header(f).size.Some? ==> lib.header(f).size.get == |data|)
    && lib.header(f).window <= WindowBound(p, |data|, b)
    && forall w: nat :: lib.header(f).window <= Pow2(w) ==> OneFrame(th.script(w, b), f, data)
  }

  /** All codings of the data are such frames. */
  ghost predicate Inverts<E, D>(lib: Library<E, D>, th: Theory<E, D>, p: Params, b: seq<byte>, data: seq<byte>) {
    forall f :: th.reading(p, |data|, b).coded(data, f) ==> FrameOf(lib, th, p, b, data, f)
  }

  ghost predicate Inverse<E(!new), D(!new)>(lib: Library<E, D>, th: Theory<E, D>) {
    forall p, b, data :: Inverts(lib, th, p, b, data)
  }

  // ----- round trips

  /** The payload of `zstd_encode` for parameters that the options resolve to. */
  ghost function Payload<E(!new), D(!new)>(lib: Library<E, D>, th: Theory<E, D>, p: Params,
                                           base: seq<byte>, target: seq<byte>, k: Encoding.Setup): Result<seq<byte>>
    requires Correct(lib, th) && k.Usable()
  {
    assert Encoding.Encodes(lib.encoder(p, |target|, base), th.reading(p, |target|, base));
    Encoding.Encode(lib.encoder(p, |target|, base), th.reading(p, |target|, base), k, target)
  }

  /** All that a reliable library sends for the target, whether or not a limit has room for it. */
  ghost function Whole<E(!new), D(!new)>(lib: Library<E, D>, th: Theory<E, D>, p: Params,
                                         base: seq<byte>, target: seq<byte>, k: Encoding.Setup): (r: seq<byte>)
    requires Correct(lib, th) && Reliable(lib, th) && k.Usable()
    ensures |r| <= th.reading(p, |target|, base).bound(|target|)
  {
    var c, w := lib.encoder(p, |target|, base), th.reading(p, |target|, base);
    assert Encoding.Encodes(c, w) && Encoding.Infallible(c, w, target);
    Encoding.Whole(c, w, k, target)
  }

  /** A payload is within the limit, and is a coding of the target. */
  lemma PayloadIsCoding<E(!new), D(!new)>(lib: Library<E, D>, th: Theory<E, D>, p: Params,
                                          base: seq<byte>, target: seq<byte>, k: Encoding.Setup)
    requires Correct(lib, th) && k.Usable()
    ensures var payload := Payload(lib, th, p, base, target, k);
            payload.Ok? ==> th.reading(p, |target|, base).coded(target, payload.value) && |payload.value| <= k.limit
  {
    var c, w := lib.encoder(p, |target|, base), th.reading(p, |target|, base);
    assert Encoding.Encodes(c, w);
    Encoding.EncodeIsCoding(c, w, k, target);
  }

  /** With a reliable library, only the limit stands between a target and its payload. */
  lemma PayloadIsExact<E(!new), D(!new)>(lib: Library<E, D>, th: Theory<E, D>, p: Params,
                                         base: seq<byte>, target: seq<byte>, k: Encoding.Setup)
    requires Correct(lib, th) && Reliable(lib, th) && k.Usable()
    ensures var whole := Whole(lib, th, p, base, target, k);
            Payload(lib, th, p, base, target, k) == if |whole| <= k.limit then Ok(whole) else Err(Limit)
  {
    var c, w := lib.encoder(p, |target|, base), th.reading(p, |target|, base);
    assert Encoding.Encodes(c, w) && Encoding.Infallible(c, w, target);
    Encoding.EncodeIsExact(c, w, k, target);
  }

  /** Every window that accepted options lead to is one that the decoder of `zstd_apply` admits. */
  lemma AcceptedWindowsAreAdmitted(o: ZstdOptions, bn: nat, n: nat, automatic: CParams, adjust: Adjust,
                                   p: Params, b: seq<byte>)
    requires Accepts(o) && Resolved(o, bn, n, automatic, adjust, p)
    ensures WindowBound(p, n, b) <= Pow2(ZSTD_WINDOW_LOG_MAX) == 0x4000_0000
  {
    var log: nat := if p.window <= 0 then 27 else p.window;
    BigPowers();
    Pow2Monotone(log, ZSTD_WINDOW_LOG_MAX);
  }

  /** The decoder of `frame_decompress` admits every frame whose content fits the bound. */
  lemma CompressedWindowsAreAdmitted(p: Params, n: nat, max: nat)
    requires n <= max <= FRAME_MAX
    ensures WindowBound(p, n, []) <= Pow2(Max(WindowLog(max), 23))
  {
    WindowIsExact(WindowLog(max), max);
    RoundUpMonotone(n, max);
  }

  /** A coding of the target within the limit applies to its base and gives the target. */
  lemma CodingApplies<E(!new), D(!new)>(lib: Library<E, D>, th: Theory<E, D>, p: Params,
                                        base: seq<byte>, target: seq<byte>, f: seq<byte>)
    requires Decodes(lib.decoder(ZSTD_WINDOW_LOG_MAX, base), th.point, th.script(ZSTD_WINDOW_LOG_MAX, base))
    requires FrameOf(lib, th, p, base, target, f)
    requires WindowBound(p, |target|, base) <= Pow2(ZSTD_WINDOW_LOG_MAX)
    requires |base| <= RAW_MAX && |target| <= RAW_MAX && |f| <= PAYLOAD_MAX
    ensures SingleFrame.Decode(lib.decoder(ZSTD_WINDOW_LOG_MAX, base), |base|, f, |target|, lib.header(f)) == Ok(target)
  {
    BigPowers();
    SingleFrame.DecodeReturns(lib.decoder(ZSTD_WINDOW_LOG_MAX, base), th.point, th.script(ZSTD_WINDOW_LOG_MAX, base),
                              |base|, f, target, lib.header(f));
  }

  /**
   Decoding what was encoded against the same base gives the target back, whatever the options; and
   a reliable library encodes every target for which the payload limit has room.
   */
  lemma ApplyInvertsEncode<E(!new), D(!new)>(lib: Library<E, D>, th: Theory<E, D>, o: ZstdOptions, p: Params,
                                            base: seq<byte>, target: seq<byte>)
    requires Correct(lib, th) && Inverse(lib, th)
    requires Accepts(o) && Resolved(o, |base|, |target|, lib.automatic(o.level, |target|, |base|), lib.adjust, p)
    requires |base| <= RAW_MAX && |target| <= RAW_MAX
    ensures Bounded(lib.decoder(ZSTD_WINDOW_LOG_MAX, base))
    ensures var payload := Payload(lib, th, p, base, target, Encoding.CODEC_SETUP);
            && (payload.Ok? ==>
                  SingleFrame.Decode(lib.decoder(ZSTD_WINDOW_LOG_MAX, base), |base|, payload.value, |target|,
                                     lib.header(payload.value)) == Ok(target))
            && (Reliable(lib, th) ==>
                  var whole := Whole(lib, th, p, base, target, Encoding.CODEC_SETUP);
                  payload == if |whole| <= PAYLOAD_MAX then Ok(whole) else Err(Limit))
  {
    assert Decodes(lib.decoder(ZSTD_WINDOW_LOG_MAX, base), th.point, th.script(ZSTD_WINDOW_LOG_MAX, base));
    var payload := Payload(lib, th, p, base, target, Encoding.CODEC_SETUP);
    if payload.Ok? {
      PayloadIsCoding(lib, th, p, base, target, Encoding.CODEC_SETUP);
      assert Inverts(lib, th, p, base, target);
      AcceptedWindowsAreAdmitted(o, |base|, |target|, lib.automatic(o.level, |target|, |base|), lib.adjust, p, base);
      CodingApplies(lib, th, p, base, target, payload.value);
    }
    if Reliable(lib, th) {
      PayloadIsExact(lib, th, p, base, target, Encoding.CODEC_SETUP);
    }
  }

  /**
   decompress(compress(data), bound) is data for every bound that admits it, whatever the level and
   window; and a reliable library compresses all data for whose frame the limit has room.
   */
  lemma DecompressInvertsCompress<E(!new), D(!new)>(lib: Library<E, D>, th: Theory<E, D>, o: ZstdOptions, p: Params,
                                                   data: seq<byte>, max: nat)
    requires Correct(lib, th) && Inverse(lib, th)
    requires Accepts(o) && Resolved(o, 0, |data|, lib.automatic(o.level, |data|, 0), lib.adjust, p)
    requires |data| <= max <= FRAME_MAX
    ensures Bounded(FrameDecoding.Configured((w: nat) => lib.decoder(w, []), max))
    ensures var payload := Payload(lib, th, p, [], data, Encoding.FRAME_SETUP);
            && (payload.Ok? ==>
                  FrameDecoding.Decode(FrameDecoding.Configured((w: nat) => lib.decoder(w, []), max), payload.value, max,
                                       lib.claimed(payload.value)).result == Ok(data))
            && (Reliable(lib, th) ==>
                  var whole := Whole(lib, th, p, [], data, Encoding.FRAME_SETUP);
                  payload == if |whole| <= FRAME_MAX then Ok(whole) else Err(Limit))
  {
    var w := Max(WindowLog(max), 23);
    var d, script := lib.decoder(w, []), th.script(w, []);
    assert Decodes(d, th.point, script);
    var payload := Payload(lib, th, p, [], data, Encoding.FRAME_SETUP);
    if payload.Ok? {
      var f := payload.value;
      PayloadIsCoding(lib, th, p, [], data, Encoding.FRAME_SETUP);
      assert Inverts(lib, th, p, [], data);
      CompressedWindowsAreAdmitted(p, |data|, max);
      FrameDecoding.DecodesOneFrame(d, th.point, script, f, max, lib.claimed(f), data);
    }
    if Reliable(lib, th) {
      PayloadIsExact(lib, th, p, [], data, Encoding.FRAME_SETUP);
    }
  }

  // ----- ownership

  /** phd_result; no status stands for PHD_OK. */
  datatype PhdResult = PhdResult(data: array?<Cell>, size: nat, failure: Maybe<Status>)

  /** A success hands one block to the caller, with the bytes at its start; a failure hands over nothing. */
  twostate predicate Settled(heap: Heap, new r: PhdResult)
    reads heap
  {
    match r.failure
    case None =>
      && r.data != null && fresh(r.data) && r.size <= r.data.Length
      && heap.live == old(heap.live) + {r.data}
    case Some(_) => r.data == null && r.size == 0 && heap.live == old(heap.live)
  }

  /** Why an encoding fails: the options, the sizes, the memory, or the run of the encoder itself. */
  ghost predicate Explained<E(!new), D(!new)>(heap: Heap, lib: Library<E, D>, th: Theory<E, D>, p: Params,
                                             base: seq<byte>, target: seq<byte>, o: ZstdOptions,
                                             largest: nat, k: Encoding.Setup, status: Status)
    requires Correct(lib, th) && k.Usable()
    reads heap
  {
    || (status == BadOption && !Accepts(o))
    || (status == Limit && (|base| > RAW_MAX || |target| > largest))
    || (status == Alloc && heap.Denied())
    || (Resolved(o, |base|, |target|, lib.automatic(o.level, |target|, |base|), lib.adjust, p)
        && Payload(lib, th, p, base, target, k) == Err(status))
  }

  /** `zstd_encode`: the limits, a context, its parameters, and the loops. */
  method ZstdEncode<E(!new), D(!new)>(heap: Heap, lib: Library<E, D>, ghost th: Theory<E, D>,
                                     base: seq<byte>, target: seq<byte>, o: ZstdOptions,
                                     largest: nat, k: Encoding.Setup)
      returns (r: Result<Growable>, ghost p: Params)
    requires Correct(lib, th) && k.Usable() && Accepts(o)
    requires base == [] || largest <= RAW_MAX
    modifies heap
    ensures r.Ok? ==> |base| <= RAW_MAX && |target| <= largest && Holds(heap, r.value)
    ensures r.Ok? ==>
              && fresh(r.value) && fresh(r.value.Block()) && heap.live == old(heap.live) + r.value.Block()
              && Resolved(o, |base|, |target|, lib.automatic(o.level, |target|, |base|), lib.adjust, p)
              && Payload(lib, th, p, base, target, k).Ok?
              && r.value.contents == Cells(Payload(lib, th, p, base, target, k).value)
    ensures r.Err? ==> heap.live == old(heap.live)
    ensures r.Err? ==>
              Explained(heap, lib, th, p, base, target, o, largest, k, r.status)
  {
    p := Params(o, 0, 0, 0);
    if !(|base| <= RAW_MAX && |target| <= largest) {
      return Err(Limit), p;
    }
    var ctx := heap.Realloc(null, 1);
    if ctx == null {
      return Err(Alloc), p;
    }
    var bn, tn := |base|, |target|;
    var params := Resolve(o, bn, tn, lib.automatic(o.level, tn, bn), lib.adjust);
    p := params;
    assert Encoding.Encodes(lib.encoder(p, tn, base), th.reading(p, tn, base));
    r := Encoding.Body(heap, lib.encoder(params, tn, base), th.reading(p, tn, base), k, target);
    heap.Free(ctx);
  }

  ghost predicate Holds(heap: Heap, g: Growable)
    reads g, heap, g.heap, g.data
  {
    g.heap == heap && g.Valid()
  }

  /** The tail of `boundary`: a finished buffer is released to the caller, with a block even when empty. */
  method Release(heap: Heap, g: Growable) returns (r: PhdResult)
    requires Holds(heap, g)
    modifies g, heap
    ensures r.failure.None? ==>
              && r.data != null && r.size == |old(g.contents)| <= r.data.Length
              && r.data[..r.size] == old(g.contents)
              && heap.live == old(heap.live) - old(g.Block()) + {r.data}
              && (r.data == old(g.data) || fresh(r.data))
    ensures r.failure.Some? ==>
              && r == PhdResult(null, 0, Some(Alloc)) && heap.Denied()
              && heap.live == old(heap.live) && old(g.Block()) == {}
  {
    var block, n := g.Release();
    if block == null {
      return PhdResult(null, 0, Some(Alloc));
    }
    return PhdResult(block, n, None);
  }

  /**
   phd_zstd_encode.  However allocations and codec calls fail, one block leaves with a success and
   none is left behind by a failure.
   */
  method PhdZstdEncode<E(!new), D(!new)>(heap: Heap, lib: Library<E, D>, ghost th: Theory<E, D>,
                                        base: seq<byte>, target: seq<byte>, o: ZstdOptions)
      returns (r: PhdResult, ghost p: Params)
    requires Correct(lib, th)
    modifies heap
    ensures Settled(heap, r)
    ensures r.failure.None? ==>
              && Accepts(o) && |base| <= RAW_MAX && |target| <= RAW_MAX
              && Resolved(o, |base|, |target|, lib.automatic(o.level, |target|, |base|), lib.adjust, p)
              && Payload(lib, th, p, base, target, Encoding.CODEC_SETUP).Ok?
              && r.data[..r.size] == Cells(Payload(lib, th, p, base, target, Encoding.CODEC_SETUP).value)
    ensures !Accepts(o) ==> r == PhdResult(null, 0, Some(BadOption))
    ensures r.failure.Some? ==>
              Explained(heap, lib, th, p, base, target, o, RAW_MAX, Encoding.CODEC_SETUP, r.failure.get)
  {
    p := Params(o, 0, 0, 0);
    if !Accepts(o) {
      return PhdResult(null, 0, Some(BadOption)), p;
    }
    var out, params := ZstdEncode(heap, lib, th, base, target, o, RAW_MAX, Encoding.CODEC_SETUP);
    p := params;
    if out.Err? {
      return PhdResult(null, 0, Some(out.status)), p;
    }
    r := Release(heap, out.value);
  }

  /** phd_zstd_compress: a frame without a base. */
  method PhdZstdCompress<E(!new), D(!new)>(heap: Heap, lib: Library<E, D>, ghost th: Theory<E, D>,
                                          data: seq<byte>, level: int, windowLog: int, checksum: int)
      returns (r: PhdResult, ghost p: Params)
    requires Correct(lib, th)
    modifies heap
    ensures Settled(heap, r)
    ensures var o := ZstdOptions(level, windowLog, 0, 1, checksum, 0, 0, 0, 0);
            r.failure.None? ==>
              && Accepts(o) && |data| <= FRAME_MAX
              && Resolved(o, 0, |data|, lib.automatic(o.level, |data|, 0), lib.adjust, p)
              && Payload(lib, th, p, [], data, Encoding.FRAME_SETUP).Ok?
              && r.data[..r.size] == Cells(Payload(lib, th, p, [], data, Encoding.FRAME_SETUP).value)
    ensures var o := ZstdOptions(level, windowLog, 0, 1, checksum, 0, 0, 0, 0);
            !Accepts(o) ==> r == PhdResult(null, 0, Some(BadOption))
    ensures var o := ZstdOptions(level, windowLog, 0, 1, checksum, 0, 0, 0, 0);
            r.failure.Some? ==>
              Explained(heap, lib, th, p, [], data, o, FRAME_MAX, Encoding.FRAME_SETUP, r.failure.get)
  {
    var o := ZstdOptions(level, windowLog, 0, 1, checksum, 0, 0, 0, 0);
    p := Params(o, 0, 0, 0);
    if !Accepts(o) {
      return PhdResult(null, 0, Some(BadOption)), p;
    }
    var out, params := ZstdEncode(heap, lib, th, [], data, o, FRAME_MAX, Encoding.FRAME_SETUP);
    p := params;
    if out.Err? {
      return PhdResult(null, 0, Some(out.status)), p;
    }
    r := Release(heap, out.value);
  }

  /** phd_zstd_decompress; safe for any decoder that stays inside its buffers. */
  method PhdZstdDecompress<D(!new)>(heap: Heap, configure: nat -> Decoder<D>, claimed: seq<byte> -> nat,
                                    src: seq<byte>, max: nat) returns (r: PhdResult)
    requires forall w :: Bounded(configure(w))
    modifies heap
    ensures Settled(heap, r)
    ensures var o := FrameDecoding.Decode(FrameDecoding.Configured(configure, max), src, max, claimed(src)).result;
            match r.failure
            case None => o.Ok? && r.data[..r.size] == Cells(o.value)
            case Some(status) => o == Err(status) || (status == Alloc && heap.Denied())
  {
    var out := FrameDecoding.FrameDecompress(heap, configure, src, max, claimed(src));
    if out.Err? {
      return PhdResult(null, 0, Some(out.status));
    }
    r := Release(heap, out.value);
  }

  /** phd_zstd_apply: the caller's buffer is checked, then filled; nothing is allocated for the caller. */
  method PhdZstdApply<D(!new)>(heap: Heap, decoder: (nat, seq<byte>) -> Decoder<D>,
                               header: seq<byte> -> SingleFrame.FrameHeader,
                               base: seq<byte>, payload: seq<byte>, dst: array<Cell>) returns (r: Result<()>)
    requires forall w, b :: Bounded(decoder(w, b))
    requires dst !in heap.live
    modifies heap, dst
    ensures heap.live == old(heap.live)
    ensures || (r == Err(Alloc) && heap.Denied())
            || match SingleFrame.Decode(decoder(ZSTD_WINDOW_LOG_MAX, base), |base|, payload, dst.Length, header(payload))
               case Ok(content) => r == Ok(()) && dst[..] == Cells(content)
               case Err(status) => r == Err(status)
  {
    if dst.Length > RAW_MAX {
      return Err(Limit);
    }
    r := SingleFrame.ZstdApply(heap, decoder, header, base, payload, dst);
  }
}
