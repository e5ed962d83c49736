/** encode_delta and apply: deltas in an envelope that is checked before and after decoding. */
module Delta {
  import opened Basics
  import opened Envelope

  datatype Fault =
    | NotEnvelope(defect: Defect)
    | BaseMismatch
    | TooLarge
    | BadOffset
    | Integrity
    | Native(status: Status)

  datatype Outcome<+T> = Done(value: T) | Raised(fault: Fault)

  type Hash = seq<byte> -> seq<byte>

  ghost predicate IsDigest(hash: Hash) {
    forall x :: |hash(x)| == 32
  }

  /** The native codecs, for one profile: encoders of (base, target), decoders of (base, payload, target size). */
  datatype Natives = Natives(
    encode: (Kind, seq<byte>, seq<byte>) -> Result<seq<byte>>,
    decode: (Kind, seq<byte>, seq<byte>, nat) -> Result<seq<byte>>)

  /** Payloads are Python bytes objects, whose length a header field can hold. */
  ghost predicate PayloadsFit(n: Natives) {
    forall kind, base, target :: n.encode(kind, base, target).Ok? ==> |n.encode(kind, base, target).value| < U64
  }

  function EncodeDelta(n: Natives, hash: Hash, kind: Kind, base: seq<byte>, target: seq<byte>): Outcome<seq<byte>>
    requires PayloadsFit(n) && IsDigest(hash)
  {
    if |base| > RAW_MAX || |target| > RAW_MAX then Raised(TooLarge)
    else
      match n.encode(kind, base, target)
      case Err(status) => Raised(Native(status))
      case Ok(payload) => Done(Seal(kind, base, target, payload, hash))
  }

  /**
   Inputs over the limit are refused, a failure of the codec is passed on, and otherwise the payload is
   put behind the header that names the codec and describes the inputs.
   */
  lemma EncodeIsExact(n: Natives, hash: Hash, kind: Kind, base: seq<byte>, target: seq<byte>)
    requires PayloadsFit(n) && IsDigest(hash)
    ensures var r := EncodeDelta(n, hash, kind, base, target);
            if |base| > RAW_MAX || |target| > RAW_MAX then r == Raised(TooLarge)
            else
              match n.encode(kind, base, target)
              case Err(status) => r == Raised(Native(status))
              case Ok(payload) =>
                && r.Done? && |r.value| == 96 + |payload| && r.value[96..] == payload
                && WellFormed(r.value, Header(kind, |base|, |target|, |payload|, hash(base), hash(target)))
  {
    if |base| <= RAW_MAX && |target| <= RAW_MAX && n.encode(kind, base, target).Ok? {
      var payload := n.encode(kind, base, target).value;
      SealParts(Header(kind, |base|, |target|, |payload|, hash(base), hash(target)), payload);
    }
  }

  /** The native apply: a view of the blob from `offset` on, and a buffer of the target's size. */
  function NativeApply(n: Natives, kind: Kind, base: seq<byte>, blob: seq<byte>, offset: int, size: int)
      : Outcome<seq<byte>>
  {
    if offset < 0 || offset > |blob| then Raised(BadOffset)
    else if size < 0 || size > RAW_MAX then Raised(Native(Limit))
    else
      match n.decode(kind, base, blob[offset..], size)
      case Err(status) => Raised(Native(status))
      case Ok(target) => Done(target)
  }

  function MinInt(a: int, b: int): int { if a <= b then a else b }

  function Apply(n: Natives, hash: Hash, base: seq<byte>, blob: seq<byte>, maxOutput: int): Outcome<seq<byte>> {
    match Inspect(blob)
    case Refused(defect) => Raised(NotEnvelope(defect))
    case Parsed(h) =>
      if h.baseLength != |base| then Raised(BaseMismatch)
      else if h.targetLength > MinInt(maxOutput, RAW_MAX) then Raised(TooLarge)
      else if hash(base) != h.baseHash then Raised(BaseMismatch)
      else
        match NativeApply(n, h.codec, base, blob, ENVELOPE_SIZE, h.targetLength)
        case Raised(fault) => Raised(fault)
        case Done(target) => if hash(target) != h.targetHash then Raised(Integrity) else Done(target)
  }

  /** The codec reconstructs what it encoded. */
  ghost predicate RoundTrips(n: Natives, kind: Kind, base: seq<byte>, target: seq<byte>) {
    n.encode(kind, base, target).Ok? ==>
      n.decode(kind, base, n.encode(kind, base, target).value, |target|) == Ok(target)
  }

  /** For both codecs: what was encoded applies to its base and gives the target, within the caller's limit. */
  lemma ApplyInvertsEncode(n: Natives, hash: Hash, kind: Kind, base: seq<byte>, target: seq<byte>, maxOutput: int)
    requires PayloadsFit(n) && IsDigest(hash) && RoundTrips(n, kind, base, target)
    ensures var blob := EncodeDelta(n, hash, kind, base, target);
            blob.Done? ==>
              Apply(n, hash, base, blob.value, maxOutput)
              == if |target| <= maxOutput then Done(target) else Raised(TooLarge)
  {
    var encoded := n.encode(kind, base, target);
    if encoded.Ok? && |base| <= RAW_MAX && |target| <= RAW_MAX {
      InspectInvertsEnvelope(kind, base, target, encoded.value, hash);
    }
  }

  /**
   Whatever the native codec returns and whatever became of the payload: a value that apply returns
   for an envelope of (base0, target0) is target0 or collides with it, and the base is base0 or
   collides with it.
   */
  lemma ApplyIsFaithful(n: Natives, hash: Hash, kind: Kind, base0: seq<byte>, target0: seq<byte>,
                        payload: seq<byte>, base: seq<byte>, maxOutput: int)
    requires IsDigest(hash) && |base0| < U64 && |target0| < U64 && |payload| < U64
    ensures var r := Apply(n, hash, base, Seal(kind, base0, target0, payload, hash), maxOutput);
            r.Done? ==>
              && (base == base0 || (|base| == |base0| && base != base0 && hash(base) == hash(base0)))
              && (r.value == target0 || (r.value != target0 && hash(r.value) == hash(target0)))
              && n.decode(kind, base, payload, |target0|) == Ok(r.value)
  {
    InspectInvertsEnvelope(kind, base0, target0, payload, hash);
  }

  /** The base is the recorded one, as far as length and hash tell. */
  predicate Matches(h: Header, hash: Hash, base: seq<byte>) {
    h.baseLength == |base| && h.baseHash == hash(base)
  }

  /**
   The native code is consulted only about a base that matches, with the bytes behind the header and
   the recorded size: two codecs that agree there give the same outcome, and with a base that does
   not match the outcome is a refusal whatever the codec would do.
   */
  lemma DecodesOnlyTheRecordedBase(n: Natives, n': Natives, hash: Hash,
                                   base: seq<byte>, blob: seq<byte>, maxOutput: int)
    requires Inspect(blob).Parsed? && Matches(Inspect(blob).header, hash, base) ==>
               var h := Inspect(blob).header;
               n.decode(h.codec, base, blob[ENVELOPE_SIZE..], h.targetLength)
               == n'.decode(h.codec, base, blob[ENVELOPE_SIZE..], h.targetLength)
    ensures Apply(n, hash, base, blob, maxOutput) == Apply(n', hash, base, blob, maxOutput)
    ensures Inspect(blob).Parsed? && !Matches(Inspect(blob).header, hash, base) ==>
              Apply(n, hash, base, blob, maxOutput) in {Raised(BaseMismatch), Raised(TooLarge)}
  {
  }

  /**
   The whole of `apply` on a well-formed envelope, in the order of its promises: another length of base,
   a target over the limits, another base, a failure of the codec, other bytes than the recorded target;
   and otherwise what the codec makes of the bytes behind the header.
   */
  lemma ApplyIsExact(n: Natives, hash: Hash, base: seq<byte>, blob: seq<byte>, maxOutput: int, h: Header)
    requires WellFormed(blob, h)
    ensures var r := Apply(n, hash, base, blob, maxOutput);
            if |base| != h.baseLength then r == Raised(BaseMismatch)
            else if h.targetLength > maxOutput || h.targetLength > RAW_MAX then r == Raised(TooLarge)
            else if hash(base) != h.baseHash then r == Raised(BaseMismatch)
            else
              match n.decode(h.codec, base, blob[96..], h.targetLength)
              case Err(status) => r == Raised(Native(status))
              case Ok(target) => r == if hash(target) == h.targetHash then Done(target) else Raised(Integrity)
  {
    InspectIsExact(blob, h);
  }

  /** Anything else than a well-formed envelope is refused as such. */
  lemma ApplyRefusesOthers(n: Natives, hash: Hash, base: seq<byte>, blob: seq<byte>, maxOutput: int)
    ensures (exists h :: WellFormed(blob, h)) <==> !(Apply(n, hash, base, blob, maxOutput).Raised?
                                                     && Apply(n, hash, base, blob, maxOutput).fault.NotEnvelope?)
  {
    if Inspect(blob).Parsed? {
      InspectIsExact(blob, Inspect(blob).header);
    }
    forall h | WellFormed(blob, h) ensures Inspect(blob).Parsed? {
      InspectIsExact(blob, h);
    }
  }
}
