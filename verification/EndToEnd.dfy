/** The Python pipeline over the bridge: a zstd delta applies to its base, byte for byte. */
module EndToEnd {
  import opened Basics
  import opened Codec
  import opened Envelope
  import opened Delta
  import Bridge
  import Encoding
  import Options
  import SingleFrame

  /** Parameters that the options resolve to, for each pair of inputs. */
  ghost predicate Resolves<E, D>(lib: Bridge.Library<E, D>, o: Options.ZstdOptions,
                                 params: (seq<byte>, seq<byte>) -> Options.Params)
  {
    forall base, target :: |base| <= RAW_MAX && |target| <= RAW_MAX ==>
      Options.Resolved(o, |base|, |target|, lib.automatic(o.level, |target|, |base|), lib.adjust, params(base, target))
  }

  /** The native zstd functions, absent allocation failure; `hdiff` stands for the other codec. */
  ghost function BridgeNatives<E(!new), D(!new)>(
      lib: Bridge.Library<E, D>, th: Bridge.Theory<E, D>,
      params: (seq<byte>, seq<byte>) -> Options.Params, hdiff: Natives): Natives
  {
    Natives(
      (kind: Kind, base: seq<byte>, target: seq<byte>) =>
        if kind.HdiffCodec? then hdiff.encode(kind, base, target)
        else NativeEncode(lib, th, params(base, target), base, target),
      (kind: Kind, base: seq<byte>, payload: seq<byte>, size: nat) =>
        if kind.HdiffCodec? then hdiff.decode(kind, base, payload, size)
        else NativeDecode(lib, base, payload, size))
  }

  ghost function NativeEncode<E(!new), D(!new)>(
      lib: Bridge.Library<E, D>, th: Bridge.Theory<E, D>, p: Options.Params,
      base: seq<byte>, target: seq<byte>): Result<seq<byte>>
  {
    if |base| > RAW_MAX || |target| > RAW_MAX || !Bridge.Correct(lib, th) then Err(Limit)
    else Bridge.Payload(lib, th, p, base, target, Encoding.CODEC_SETUP)
  }

  ghost function NativeDecode<E(!new), D(!new)>(lib: Bridge.Library<E, D>, base: seq<byte>,
                                               payload: seq<byte>, size: nat): Result<seq<byte>>
  {
    var d := lib.decoder(ZSTD_WINDOW_LOG_MAX, base);
    if Bounded(d) then SingleFrame.Decode(d, |base|, payload, size, lib.header(payload)) else Err(Invalid)
  }

  lemma PayloadFits<E(!new), D(!new)>(lib: Bridge.Library<E, D>, th: Bridge.Theory<E, D>, p: Options.Params,
                                      base: seq<byte>, target: seq<byte>)
    ensures var r := NativeEncode(lib, th, p, base, target); r.Ok? ==> |r.value| <= PAYLOAD_MAX
  {
    if |base| <= RAW_MAX && |target| <= RAW_MAX && Bridge.Correct(lib, th) {
      Bridge.PayloadIsCoding(lib, th, p, base, target, Encoding.CODEC_SETUP);
    }
  }

  /** The library is reliable, and its payload of the target is within the limit. */
  ghost predicate Encodable<E(!new), D(!new)>(lib: Bridge.Library<E, D>, th: Bridge.Theory<E, D>,
                                             p: Options.Params, base: seq<byte>, target: seq<byte>)
    requires Bridge.Correct(lib, th) && Bridge.Reliable(lib, th)
  {
    && |base| <= RAW_MAX && |target| <= RAW_MAX
    && |Bridge.Whole(lib, th, p, base, target, Encoding.CODEC_SETUP)| <= PAYLOAD_MAX
  }

  /**
   The bridge keeps the promise that the envelope pipeline relies on; what a reliable library sends
   is refused for nothing but its size, or the size of the inputs.
   */
  lemma BridgeRoundTrips<E(!new), D(!new)>(
      lib: Bridge.Library<E, D>, th: Bridge.Theory<E, D>, o: Options.ZstdOptions, p: Options.Params,
      base: seq<byte>, target: seq<byte>)
    requires Bridge.Correct(lib, th) && Bridge.Inverse(lib, th) && Options.Accepts(o)
    requires |base| <= RAW_MAX && |target| <= RAW_MAX ==>
               Options.Resolved(o, |base|, |target|, lib.automatic(o.level, |target|, |base|), lib.adjust, p)
    ensures var r := NativeEncode(lib, th, p, base, target);
            && (r.Ok? ==> NativeDecode(lib, base, r.value, |target|) == Ok(target))
            && (Bridge.Reliable(lib, th) ==>
                  if Encodable(lib, th, p, base, target) then r.Ok? else r == Err(Limit))
  {
    if |base| <= RAW_MAX && |target| <= RAW_MAX {
      Bridge.ApplyInvertsEncode(lib, th, o, p, base, target);
    }
  }

  /**
   apply(base, encode_delta(base, target, ZstdProfile)) is target for every base, target and accepted
   profile, through the envelope, the encoder loop and the decoder loop.  With a reliable library
   encode_delta fails only for inputs over the raw limit, or for a payload over its own.
   */
  lemma ZstdDeltaRoundTrips<E(!new), D(!new)>(
      lib: Bridge.Library<E, D>, th: Bridge.Theory<E, D>, o: Options.ZstdOptions,
      params: (seq<byte>, seq<byte>) -> Options.Params, hdiff: Natives, hash: Hash,
      base: seq<byte>, target: seq<byte>, maxOutput: int)
    requires Bridge.Correct(lib, th) && Bridge.Inverse(lib, th)
    requires Options.Accepts(o) && Resolves(lib, o, params)
    requires PayloadsFit(hdiff) && IsDigest(hash)
    ensures PayloadsFit(BridgeNatives(lib, th, params, hdiff))
    ensures var n := BridgeNatives(lib, th, params, hdiff);
            var blob := EncodeDelta(n, hash, ZstdCodec, base, target);
            && (blob.Done? ==>
                  Apply(n, hash, base, blob.value, maxOutput)
                  == if |target| <= maxOutput then Done(target) else Raised(TooLarge))
            && (Bridge.Reliable(lib, th) ==>
                  if Encodable(lib, th, params(base, target), base, target) then blob.Done?
                  else if |base| > RAW_MAX || |target| > RAW_MAX then blob == Raised(TooLarge)
                  else blob == Raised(Native(Limit)))
  {
    var n := BridgeNatives(lib, th, params, hdiff);
    forall kind, b, t | n.encode(kind, b, t).Ok? ensures |n.encode(kind, b, t).value| < U64 {
      PayloadFits(lib, th, params(b, t), b, t);
    }
    BridgeRoundTrips(lib, th, o, params(base, target), base, target);
    ApplyInvertsEncode(n, hash, ZstdCodec, base, target, maxOutput);
  }

  /**
   Nothing is left to chance for a reliable library whose output bound stays within the payload
   limit: every base and target up to the raw limit encode, and apply gives the target.
   */
  lemma ZstdDeltasAlwaysApply<E(!new), D(!new)>(
      lib: Bridge.Library<E, D>, th: Bridge.Theory<E, D>, o: Options.ZstdOptions,
      params: (seq<byte>, seq<byte>) -> Options.Params, hdiff: Natives, hash: Hash,
      base: seq<byte>, target: seq<byte>)
    requires Bridge.Correct(lib, th) && Bridge.Inverse(lib, th) && Bridge.Reliable(lib, th)
    requires Options.Accepts(o) && Resolves(lib, o, params)
    requires PayloadsFit(hdiff) && IsDigest(hash)
    requires |base| <= RAW_MAX && |target| <= RAW_MAX
    requires th.reading(params(base, target), |target|, base).bound(|target|) <= PAYLOAD_MAX
    ensures PayloadsFit(BridgeNatives(lib, th, params, hdiff))
    ensures var n := BridgeNatives(lib, th, params, hdiff);
            var blob := EncodeDelta(n, hash, ZstdCodec, base, target);
            blob.Done? && Apply(n, hash, base, blob.value, RAW_MAX) == Done(target)
  {
    ZstdDeltaRoundTrips(lib, th, o, params, hdiff, hash, base, target, RAW_MAX);
  }
}
