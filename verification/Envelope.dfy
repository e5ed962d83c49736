/** The 96-byte envelope header: a big-endian printer and parser. */
module Envelope {
  import opened Basics

  const ENVELOPE_SIZE: nat := 96
  const MAGIC: seq<byte> := [80, 72, 68, 70]    // "PHDF"
  const FORMAT_VERSION: nat := 1
  const U64: nat := 0x1_0000_0000_0000_0000

  // ----- big-endian integers

  function Pow256(n: nat): (r: nat)
    ensures r >= 1
  {
    if n == 0 then 1 else 256 * Pow256(n - 1)
  }

  function Print(n: nat, width: nat): (r: seq<byte>)
    ensures |r| == width
  {
    if width == 0 then [] else Print(n / 256, width - 1) + [(n % 256) as byte]
  }

  function Parse(s: seq<byte>): nat {
    if s == [] then 0 else 256 * Parse(s[..|s| - 1]) + s[|s| - 1] as nat
  }

  lemma {:induction false} ParsePrint(n: nat, width: nat)
    requires n < Pow256(width)
    ensures Parse(Print(n, width)) == n && BigEndian(Print(n, width), n)
  {
    PrintIsBigEndian(n, width);
    if width > 0 {
      ParsePrint(n / 256, width - 1);
      assert Print(n, width)[..width - 1] == Print(n / 256, width - 1);
    }
  }

  lemma {:induction false} PrintParse(s: seq<byte>)
    ensures Parse(s) < Pow256(|s|)
    ensures Print(Parse(s), |s|) == s && BigEndian(s, Parse(s))
  {
    PrintIsBigEndian(Parse(s), |s|);
    if s != [] {
      PrintParse(s[..|s| - 1]);
      assert Parse(s) / 256 == Parse(s[..|s| - 1]);
      assert s == s[..|s| - 1] + [s[|s| - 1]];
    }
  }

  /** The byte at `i` has the weight of all the bytes behind it: most significant first. */
  predicate BigEndian(b: seq<byte>, n: nat) {
    forall i :: 0 <= i < |b| ==> b[i] as nat == n / Pow256(|b| - 1 - i) % 256
  }

  lemma DivideTwice(n: nat, p: nat)
    requires p > 0
    ensures n / 256 / p == n / (256 * p)
  {
    var q := n / 256;
    var a, r := q / p, 256 * (q % p) + n % 256;
    assert q % p <= p - 1;
    assert n == (256 * p) * a + r && r < 256 * p by {
      assert q == p * a + q % p;
      assert 256 * (p * a) == (256 * p) * a;
    }
    QuotientIs(n, 256 * p, a, r);
  }

  lemma QuotientIs(n: nat, d: nat, a: nat, r: nat)
    requires d > 0 && n == d * a + r && r < d
    ensures n / d == a
  {
    var q := n / d;
    assert d * (q - a) == r - n % d by {
      assert d * (q - a) == d * q - d * a;
    }
    assert q - a >= 1 ==> d * (q - a) >= d;
    assert a - q >= 1 ==> d * (a - q) >= d;
  }

  lemma {:induction false} PrintIsBigEndian(n: nat, width: nat)
    ensures BigEndian(Print(n, width), n)
  {
    if width > 0 {
      PrintIsBigEndian(n / 256, width - 1);
      forall i | 0 <= i < width - 1 ensures Print(n, width)[i] as nat == n / Pow256(width - 1 - i) % 256 {
        DivideTwice(n, Pow256(width - 2 - i));
      }
    }
  }

  /** There is one way to print a number most significant byte first. */
  lemma BigEndianIsPrint(b: seq<byte>, n: nat)
    ensures BigEndian(b, n) <==> b == Print(n, |b|)
  {
    PrintIsBigEndian(n, |b|);
    if BigEndian(b, n) {
      forall i | 0 <= i < |b| ensures b[i] == Print(n, |b|)[i] {
      }
    }
  }

  lemma Widths()
    ensures Pow256(1) == 0x100 && Pow256(2) == 0x1_0000 && Pow256(8) == U64
  {
    assert Pow256(4) == 0x1_0000_0000;
    assert Pow256(6) == 0x1_0000_0000_0000;
  }

  // ----- the header

  /** The nine fields, in order, of the struct format ">4sBBHQQQ32s32s". */
  datatype Fields = Fields(
    magic: seq<byte>, version: nat, codec: nat, reserved: nat,
    baseLength: nat, targetLength: nat, payloadLength: nat,
    baseHash: seq<byte>, targetHash: seq<byte>)
  {
    predicate Fits() {
      && |magic| == 4 && version < 0x100 && codec < 0x100 && reserved < 0x1_0000
      && baseLength < U64 && targetLength < U64 && payloadLength < U64
      && |baseHash| == 32 && |targetHash| == 32
    }
  }

  function Pack(f: Fields): (r: seq<byte>)
    requires f.Fits()
    ensures |r| == ENVELOPE_SIZE
  {
    f.magic + Print(f.version, 1) + Print(f.codec, 1) + Print(f.reserved, 2)
    + Print(f.baseLength, 8) + Print(f.targetLength, 8) + Print(f.payloadLength, 8)
    + f.baseHash + f.targetHash
  }

  function Unpack(b: seq<byte>): Fields
    requires |b| >= ENVELOPE_SIZE
  {
    Fields(b[0..4], Parse(b[4..5]), Parse(b[5..6]), Parse(b[6..8]),
           Parse(b[8..16]), Parse(b[16..24]), Parse(b[24..32]), b[32..64], b[64..96])
  }

  /** Where the fields are, integers most significant byte first. */
  predicate Laid(b: seq<byte>, f: Fields)
    requires |b| >= 96
  {
    && b[0..4] == f.magic && BigEndian(b[4..5], f.version) && BigEndian(b[5..6], f.codec)
    && BigEndian(b[6..8], f.reserved) && BigEndian(b[8..16], f.baseLength)
    && BigEndian(b[16..24], f.targetLength) && BigEndian(b[24..32], f.payloadLength)
    && b[32..64] == f.baseHash && b[64..96] == f.targetHash
  }

  lemma UnpackPack(f: Fields, rest: seq<byte>)
    requires f.Fits()
    ensures Unpack(Pack(f) + rest) == f && Laid(Pack(f) + rest, f)
  {
    var b := Pack(f) + rest;
    Widths();
    ParsePrint(f.version, 1);
    ParsePrint(f.codec, 1);
    ParsePrint(f.reserved, 2);
    ParsePrint(f.baseLength, 8);
    ParsePrint(f.targetLength, 8);
    ParsePrint(f.payloadLength, 8);
    assert b[0..4] == f.magic;
    assert b[4..5] == Print(f.version, 1);
    assert b[5..6] == Print(f.codec, 1);
    assert b[6..8] == Print(f.reserved, 2);
    assert b[8..16] == Print(f.baseLength, 8);
    assert b[16..24] == Print(f.targetLength, 8);
    assert b[24..32] == Print(f.payloadLength, 8);
    assert b[32..64] == f.baseHash;
    assert b[64..96] == f.targetHash;
  }

  lemma PackUnpack(b: seq<byte>)
    requires |b| >= ENVELOPE_SIZE
    ensures Unpack(b).Fits() && Pack(Unpack(b)) + b[ENVELOPE_SIZE..] == b && Laid(b, Unpack(b))
  {
    Widths();
    PrintParse(b[4..5]);
    PrintParse(b[5..6]);
    PrintParse(b[6..8]);
    PrintParse(b[8..16]);
    PrintParse(b[16..24]);
    PrintParse(b[24..32]);
  }

  // ----- _envelope and inspect

  datatype Kind = HdiffCodec | ZstdCodec

  function CodecId(c: Kind): nat {
    if c.HdiffCodec? then 1 else 2
  }

  datatype Header = Header(
    codec: Kind, baseLength: nat, targetLength: nat, payloadLength: nat,
    baseHash: seq<byte>, targetHash: seq<byte>)
  {
    function ToFields(): Fields {
      Fields(MAGIC, FORMAT_VERSION, CodecId(codec), 0, baseLength, targetLength, payloadLength, baseHash, targetHash)
    }
  }

  /** Why a blob is no envelope, in the order in which `inspect` finds out. */
  datatype Defect = TooShort | BadMagic | BadVersion | BadCodec | NotReserved | BadLength

  datatype Inspection = Parsed(header: Header) | Refused(defect: Defect)

  function Seal(c: Kind, base: seq<byte>, target: seq<byte>, payload: seq<byte>,
                    hash: seq<byte> -> seq<byte>): seq<byte>
    requires |base| < U64 && |target| < U64 && |payload| < U64
    requires forall x :: |hash(x)| == 32
  {
    Pack(Header(c, |base|, |target|, |payload|, hash(base), hash(target)).ToFields()) + payload
  }

  function Inspect(blob: seq<byte>): Inspection {
    if |blob| < ENVELOPE_SIZE then Refused(TooShort)
    else
      var f := Unpack(blob);
      if f.magic != MAGIC then Refused(BadMagic)
      else if f.version != FORMAT_VERSION then Refused(BadVersion)
      else if f.codec != 1 && f.codec != 2 then Refused(BadCodec)
      else if f.reserved != 0 then Refused(NotReserved)
      else if f.payloadLength != |blob| - ENVELOPE_SIZE then Refused(BadLength)
      else Parsed(Header(if f.codec == 1 then HdiffCodec else ZstdCodec, f.baseLength, f.targetLength, f.payloadLength,
                         f.baseHash, f.targetHash))
  }

  /** What `_envelope` prints, `inspect` reads back. */
  lemma InspectInvertsEnvelope(c: Kind, base: seq<byte>, target: seq<byte>, payload: seq<byte>,
                               hash: seq<byte> -> seq<byte>)
    requires |base| < U64 && |target| < U64 && |payload| < U64
    requires forall x :: |hash(x)| == 32
    ensures Inspect(Seal(c, base, target, payload, hash))
            == Parsed(Header(c, |base|, |target|, |payload|, hash(base), hash(target)))
    ensures Seal(c, base, target, payload, hash)[ENVELOPE_SIZE..] == payload
  {
    UnpackPack(Header(c, |base|, |target|, |payload|, hash(base), hash(target)).ToFields(), payload);
  }

  /**
   The 96 bytes of a sealed envelope: magic, version 1, codec id, two reserved zeros, the lengths of
   base, target and payload in 8 bytes each, most significant first, and the two hashes.
   */
  lemma SealLayout(c: Kind, base: seq<byte>, target: seq<byte>, payload: seq<byte>, hash: seq<byte> -> seq<byte>)
    requires |base| < U64 && |target| < U64 && |payload| < U64
    requires forall x :: |hash(x)| == 32
    ensures var b := Seal(c, base, target, payload, hash);
            && |b| == 96 + |payload|
            && b[0..6] == [80, 72, 68, 70, 1, if c == HdiffCodec then 1 else 2] && b[6..8] == [0, 0]
            && (forall i :: 0 <= i < 8 ==> b[8..16][i] as nat == |base| / Pow256(7 - i) % 256)
            && (forall i :: 0 <= i < 8 ==> b[16..24][i] as nat == |target| / Pow256(7 - i) % 256)
            && (forall i :: 0 <= i < 8 ==> b[24..32][i] as nat == |payload| / Pow256(7 - i) % 256)
            && b[32..64] == hash(base) && b[64..96] == hash(target) && b[96..] == payload
  {
    var b := Seal(c, base, target, payload, hash);
    SealParts(Header(c, |base|, |target|, |payload|, hash(base), hash(target)), payload);
    assert BigEndian(b[8..16], |base|) && BigEndian(b[16..24], |target|) && BigEndian(b[24..32], |payload|);
  }

  /** A blob that begins with a header, field by field, whose payload is all the rest. */
  ghost predicate WellFormed(blob: seq<byte>, h: Header) {
    && h.baseLength < U64 && h.targetLength < U64 && h.payloadLength < U64
    && |blob| == 96 + h.payloadLength
    && blob[0..6] == [80, 72, 68, 70, 1, if h.codec == HdiffCodec then 1 else 2] && blob[6..8] == [0, 0]
    && BigEndian(blob[8..16], h.baseLength)
    && BigEndian(blob[16..24], h.targetLength)
    && BigEndian(blob[24..32], h.payloadLength)
    && blob[32..64] == h.baseHash && blob[64..96] == h.targetHash
  }

  lemma SmallPrints()
    ensures Print(1, 1) == [1] && Print(2, 1) == [2] && Print(0, 2) == [0, 0]
  {
    assert Print(0, 1) == [0];
  }

  /** A printed header is well-formed. */
  lemma SealParts(h: Header, payload: seq<byte>)
    requires h.ToFields().Fits() && |payload| == h.payloadLength
    ensures WellFormed(Pack(h.ToFields()) + payload, h)
  {
    var b := Pack(h.ToFields()) + payload;
    UnpackPack(h.ToFields(), payload);
    SmallPrints();
    BigEndianIsPrint(b[4..5], FORMAT_VERSION);
    BigEndianIsPrint(b[5..6], CodecId(h.codec));
    BigEndianIsPrint(b[6..8], 0);
    assert b[0..6] == b[0..4] + b[4..5] + b[5..6];
  }

  /** A well-formed blob is a printed header with its payload. */
  lemma WellFormedIsPacked(blob: seq<byte>, h: Header)
    requires WellFormed(blob, h)
    ensures h.ToFields().Fits() && blob == Pack(h.ToFields()) + blob[ENVELOPE_SIZE..]
  {
    SmallPrints();
    BigEndianIsPrint(blob[8..16], h.baseLength);
    BigEndianIsPrint(blob[16..24], h.targetLength);
    BigEndianIsPrint(blob[24..32], h.payloadLength);
    assert blob[0..6] == MAGIC + Print(FORMAT_VERSION, 1) + Print(CodecId(h.codec), 1);
    assert blob == blob[0..6] + blob[6..8] + blob[8..16] + blob[16..24] + blob[24..32] + blob[32..64] + blob[64..96]
                   + blob[96..];
  }

  /** `inspect` accepts exactly the well-formed blobs, and reads their fields. */
  lemma InspectIsExact(blob: seq<byte>, h: Header)
    ensures Inspect(blob) == Parsed(h) <==> WellFormed(blob, h)
  {
    if WellFormed(blob, h) {
      WellFormedIsPacked(blob, h);
      UnpackPack(h.ToFields(), blob[ENVELOPE_SIZE..]);
    }
    if Inspect(blob) == Parsed(h) {
      PackUnpack(blob);
      SealParts(h, blob[ENVELOPE_SIZE..]);
    }
  }

  /** What is not well-formed is refused for the first field that is not. */
  lemma InspectFindsDefect(blob: seq<byte>)
    ensures if |blob| < 96 then Inspect(blob) == Refused(TooShort)
            else if blob[0..4] != [80, 72, 68, 70] then Inspect(blob) == Refused(BadMagic)
            else if blob[4] != 1 then Inspect(blob) == Refused(BadVersion)
            else if blob[5] != 1 && blob[5] != 2 then Inspect(blob) == Refused(BadCodec)
            else if blob[6..8] != [0, 0] then Inspect(blob) == Refused(NotReserved)
            else if |blob| - 96 >= U64 || !BigEndian(blob[24..32], |blob| - 96) then Inspect(blob) == Refused(BadLength)
            else Inspect(blob).Parsed?
  {
    if |blob| >= 96 {
      ParseByte(blob[4..5]);
      ParseByte(blob[5..6]);
      ParseZeros(blob[6..8]);
      Widths();
      PrintParse(blob[24..32]);
      BigEndianIsPrint(blob[24..32], |blob| - 96);
      if |blob| - 96 < U64 {
        ParsePrint(|blob| - 96, 8);
      }
    }
  }

  lemma ParseByte(s: seq<byte>)
    requires |s| == 1
    ensures Parse(s) == s[0] as nat
  {
    assert s[..0] == [];
  }

  lemma ParseZeros(s: seq<byte>)
    requires |s| == 2
    ensures Parse(s) == 0 <==> s == [0, 0]
  {
    ParseByte(s[..1]);
  }
}
