/** `hdiff_apply` around the opaque patch call: which bytes of a payload the patch gets to see. */
module HdiffStreams {
  import opened Basics
  import opened Script
  import opened Codec
  import opened DecoderPlugin
  import Encoding
  import EncoderPlugin
  import SingleFrame

  const STEP_MAX: nat := 256 * 1024

  datatype Compression = Plain | ZstdStream | Unknown

  /** What getSingleCompressedDiffInfo finds at the start of a payload. */
  datatype Info = Info(
    oldSize: nat, newSize: nat, stepSize: nat, uncompressed: nat, compressed: nat, dataPos: nat,
    kind: Compression)

  function Require(condition: bool, status: Status, rest: Result<Info>): Result<Info> {
    if condition then rest else Err(status)
  }

  /** The checks before patching, in the order of the code. */
  function Precheck(bn: nat, pn: nat, tn: nat, info: Maybe<Info>): Result<Info> {
    if !(bn <= RAW_MAX && tn <= RAW_MAX && pn <= PAYLOAD_MAX) then Err(Limit)
    else
      match info
      case None => Err(Invalid)
      case Some(i) =>
        var encoded := if i.compressed != 0 then i.compressed else i.uncompressed;
        Require(i.oldSize == bn && i.newSize == tn, Invalid,
        Require(i.stepSize <= STEP_MAX && i.uncompressed <= PAYLOAD_MAX, Limit,
        Require(!i.kind.Unknown?, Invalid,
        Require(i.dataPos <= pn && encoded == pn - i.dataPos, Invalid,
        Require(i.compressed == 0 || !i.kind.Plain?, Invalid, Ok(i))))))
  }

  /** The patch as a function of the base and of the diff data it pulls, in whatever parts; it may refuse both. */
  type Patch = (seq<byte>, seq<byte>) -> Maybe<seq<byte>>

  /** The diff data: straight from the payload, or through the decoder plugin if it is compressed. */
  ghost function DiffData<S(!new)>(d: Decoder<S>, payload: seq<byte>, i: Info, lengths: seq<nat>): Result<seq<byte>>
    requires Bounded(d)
    requires i.dataPos <= |payload|
  {
    if i.compressed == 0 then Ok(payload[i.dataPos..])
    else Session(d, payload, i.uncompressed, i.dataPos, i.dataPos + i.compressed, lengths)
  }

  /** `hdiff_apply` with a patch that pulls its data in parts of the given lengths. */
  ghost function Apply<S(!new)>(d: Decoder<S>, patch: Patch, base: seq<byte>, payload: seq<byte>, tn: nat,
                                info: Maybe<Info>, lengths: seq<nat>): Result<seq<byte>>
    requires Bounded(d)
  {
    match Precheck(|base|, |payload|, tn, info)
    case Err(status) => Err(status)
    case Ok(i) =>
      match DiffData(d, payload, i, lengths)
      case Err(status) => Err(status)
      case Ok(data) =>
        match patch(base, data)
        case None => Err(Invalid)
        case Some(target) => Ok(target)
  }

  /** Sizes within the limits, and a header that agrees with the inputs and describes all of the payload. */
  ghost predicate Admissible(bn: nat, pn: nat, tn: nat, i: Info) {
    && bn <= RAW_MAX && tn <= RAW_MAX && pn <= PAYLOAD_MAX
    && i.oldSize == bn && i.newSize == tn
    && i.stepSize <= 262144 && i.uncompressed <= PAYLOAD_MAX
    && i.kind != Unknown && (i.compressed == 0 || i.kind == ZstdStream)
    && i.dataPos + (if i.compressed == 0 then i.uncompressed else i.compressed) == pn
  }

  /** Nothing else is patched, and each thing that is not admissible is refused with its own status. */
  lemma HeaderIsChecked<S(!new)>(d: Decoder<S>, patch: Patch, base: seq<byte>, payload: seq<byte>, tn: nat,
                                 info: Maybe<Info>, lengths: seq<nat>)
    requires Bounded(d)
    ensures var r := Apply(d, patch, base, payload, tn, info, lengths);
            if |base| > RAW_MAX || tn > RAW_MAX || |payload| > PAYLOAD_MAX then r == Err(Limit)
            else
              match info
              case None => r == Err(Invalid)
              case Some(i) =>
                if i.oldSize != |base| || i.newSize != tn then r == Err(Invalid)
                else if i.stepSize > 262144 || i.uncompressed > PAYLOAD_MAX then r == Err(Limit)
                else !Admissible(|base|, |payload|, tn, i) ==> r == Err(Invalid)
  {
  }

  /** What the payload holds, by the script alone. */
  ghost predicate Carries(script: Script, payload: seq<byte>, i: Info, data: seq<byte>)
    requires i.dataPos <= |payload|
  {
    if i.compressed == 0 then data == payload[i.dataPos..]
    else |data| == i.uncompressed && OneFrame(script, payload[i.dataPos..], data)
  }

  /** Parts add up only where there is a session to deliver them. */
  predicate AddUp(i: Info, lengths: seq<nat>) {
    i.compressed == 0 || Sum(lengths) == i.uncompressed
  }

  /** The compressed data is all of the payload from its position on. */
  lemma RangeIsTail(bn: nat, payload: seq<byte>, tn: nat, i: Info)
    requires Admissible(bn, |payload|, tn, i) && i.compressed != 0
    ensures payload[i.dataPos..i.dataPos + i.compressed] == payload[i.dataPos..]
    ensures Precheck(bn, |payload|, tn, Some(i)) == Ok(i)
  {
  }

  lemma DataIsCarried<S(!new)>(d: Decoder<S>, abs: S -> Point, script: Script, bn: nat, payload: seq<byte>, tn: nat,
                               i: Info, lengths: seq<nat>, data: seq<byte>)
    requires Follows(d, abs, script) && Progresses(d, abs, script)
    requires Admissible(bn, |payload|, tn, i)
    ensures DiffData(d, payload, i, lengths) == Ok(data) <==> AddUp(i, lengths) && Carries(script, payload, i, data)
  {
    if i.compressed != 0 {
      var b, e := i.dataPos, i.dataPos + i.compressed;
      RangeIsTail(bn, payload, tn, i);
      if Sum(lengths) == i.uncompressed {
        SessionReturns(d, abs, script, payload, i.uncompressed, b, e, lengths, data);
      } else {
        SessionIsExact(d, abs, script, payload, i.uncompressed, b, e, lengths);
      }
    }
  }

  /**
   The patch is given exactly what the payload carries behind its header: all the rest of the
   payload, as it is or as one frame of the recorded size with nothing behind it, pulled to its end.
   With a decoder that progresses this holds both ways, so the outcome depends on nothing else; what
   the patch itself refuses is invalid.
   */
  lemma ApplyIsExact<S(!new)>(d: Decoder<S>, abs: S -> Point, script: Script, patch: Patch,
                              base: seq<byte>, payload: seq<byte>, tn: nat, info: Maybe<Info>, lengths: seq<nat>,
                              target: seq<byte>)
    requires Follows(d, abs, script) && Progresses(d, abs, script)
    ensures Apply(d, patch, base, payload, tn, info, lengths) == Ok(target) <==>
              && |base| <= RAW_MAX && tn <= RAW_MAX && |payload| <= PAYLOAD_MAX && info.Some?
              && var i := info.get;
              && i.oldSize == |base| && i.newSize == tn
              && i.stepSize <= 262144 && i.uncompressed <= PAYLOAD_MAX
              && i.kind != Unknown && (i.compressed == 0 || i.kind == ZstdStream)
              && i.dataPos + (if i.compressed == 0 then i.uncompressed else i.compressed) == |payload|
              && AddUp(i, lengths)
              && exists data :: Carries(script, payload, i, data) && patch(base, data) == Some(target)
    ensures info.Some? && Admissible(|base|, |payload|, tn, info.get) && AddUp(info.get, lengths) ==>
              forall data :: Carries(script, payload, info.get, data) && patch(base, data) == None ==>
                Apply(d, patch, base, payload, tn, info, lengths) == Err(Invalid)
  {
    if info.Some? && Admissible(|base|, |payload|, tn, info.get) {
      forall data: seq<byte>
        ensures DiffData(d, payload, info.get, lengths) == Ok(data)
                <==> AddUp(info.get, lengths) && Carries(script, payload, info.get, data)
      {
        DataIsCarried(d, abs, script, |base|, payload, tn, info.get, lengths, data);
      }
    }
  }

  /**
   A compressed payload whose frame gets stuck within the recorded size is refused with the status of
   that fault, however it is pulled.
   */
  lemma FaultIsReported<S(!new)>(d: Decoder<S>, abs: S -> Point, script: Script, patch: Patch,
                                 base: seq<byte>, payload: seq<byte>, tn: nat, i: Info, lengths: seq<nat>, t: Machine)
    requires Follows(d, abs, script) && Progresses(d, abs, script)
    requires Admissible(|base|, |payload|, tn, i) && i.compressed != 0 && AddUp(i, lengths)
    requires SingleFrame.StuckAt(script, payload[i.dataPos..], t) && |t.out| <= i.uncompressed
    ensures Apply(d, patch, base, payload, tn, Some(i), lengths) == Err(SingleFrame.Fault(script, t))
  {
    var b, e := i.dataPos, i.dataPos + i.compressed;
    RangeIsTail(|base|, payload, tn, i);
    SessionReportsFault(d, abs, script, payload, i.uncompressed, b, e, lengths, t);
  }

  /** A compressed payload that holds a frame of another size, or more than a frame, is invalid. */
  lemma MisfitIsReported<S(!new)>(d: Decoder<S>, abs: S -> Point, script: Script, patch: Patch,
                                  base: seq<byte>, payload: seq<byte>, tn: nat, i: Info, lengths: seq<nat>,
                                  content: seq<byte>, rest: seq<byte>)
    requires Follows(d, abs, script) && Progresses(d, abs, script)
    requires Admissible(|base|, |payload|, tn, i) && i.compressed != 0
    requires SingleFrame.Leads(script, payload[i.dataPos..], content, rest)
    requires rest != [] || |content| != i.uncompressed
    ensures Apply(d, patch, base, payload, tn, Some(i), lengths) == Err(Invalid)
  {
    var b, e := i.dataPos, i.dataPos + i.compressed;
    RangeIsTail(|base|, payload, tn, i);
    SessionOnHead(d, abs, script, payload, i.uncompressed, b, e, lengths, content, rest);
  }

  /** A frame is read back from wherever it is, in whatever parts it is pulled. */
  lemma SessionOnPart<S(!new)>(d: Decoder<S>, abs: S -> Point, script: Script, content: seq<byte>,
                               before: seq<byte>, f: seq<byte>, after: seq<byte>, lengths: seq<nat>)
    requires Follows(d, abs, script) && Progresses(d, abs, script) && OneFrame(script, f, content)
    requires |content| <= PAYLOAD_MAX && Sum(lengths) == |content|
    ensures Session(d, before + f + after, |content|, |before|, |before| + |f|, lengths) == Ok(content)
  {
    var source, b, e := before + f + after, |before|, |before| + |f|;
    assert source[b..e] == f;
    SessionReturns(d, abs, script, source, |content|, b, e, lengths, content);
  }

  /**
   What the compressor plugin wrote, the decoder plugin reads back, from wherever it ended up in a
   payload, in whatever parts it is pulled and whatever the chunk sizes on either side.  With an
   encoder that does not fail, a sink that takes every write and room for the bound, it is written.
   */
  lemma PluginsRoundTrip<S(!new), E(!new)>(
      d: Decoder<S>, abs: S -> Point, script: Script, c: Encoding.Encoder<E>, w: Encoding.Reading<E>,
      k: Encoding.Setup, refuses: EncoderPlugin.Refusal,
      input: seq<byte>, before: seq<byte>, after: seq<byte>, lengths: seq<nat>)
    requires Follows(d, abs, script) && Progresses(d, abs, script)
    requires Encoding.Encodes(c, w) && k.Usable()
    requires forall f :: w.coded(input, f) ==> OneFrame(script, f, input)
    requires |input| <= PAYLOAD_MAX && Sum(lengths) == |input|
    ensures var o := EncoderPlugin.Compressed(c, w, k, refuses, input);
            && (o.ending.Written? ==>
                  && o.ending.n == |o.sent|
                  && Session(d, before + o.sent + after, |input|, |before|, |before| + o.ending.n, lengths) == Ok(input))
            && (Encoding.Infallible(c, w, input) && w.bound(|input|) <= k.limit && EncoderPlugin.TakesAll(refuses) ==>
                  o.ending.Written?)
  {
    var o := EncoderPlugin.Compressed(c, w, k, refuses, input);
    if o.ending.Written? {
      EncoderPlugin.CompressionIsExact(c, w, k, refuses, input);
      Encoding.EncodeIsCoding(c, w, k, input);
      SessionOnPart(d, abs, script, input, before, o.sent, after, lengths);
    }
    if Encoding.Infallible(c, w, input) && w.bound(|input|) <= k.limit && EncoderPlugin.TakesAll(refuses) {
      EncoderPlugin.CompressionIsWritten(c, w, k, refuses, input);
    }
  }
}
