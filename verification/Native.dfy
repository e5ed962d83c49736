/** The CPython layer: payload views into an envelope, and the hand-over of native results. */
module Native {
  import opened Basics
  import opened Codec
  import opened Buffers
  import opened Bridge
  import Delta

  /** Bytes that a Python object owns; the view addresses a part of them. */
  class View {
    var owner: seq<byte>
    var data: nat
    var size: nat

    ghost predicate Valid()
      reads this
    {
      data + size <= |owner|
    }

    ghost function Contents(): seq<byte>
      requires Valid()
      reads this
    {
      owner[data..data + size]
    }

    constructor ()
      ensures Valid()
    {
      owner, data, size := [], 0, 0;
    }

    method BytesView(bytes: seq<byte>)
      modifies this
      ensures Valid() && owner == bytes && data == 0 && size == |bytes| && Contents() == bytes
    {
      owner, data, size := bytes, 0, |bytes|;
    }

    /** tail_view: a view of everything from `offset` on, without a copy, or a refusal. */
    method TailView(bytes: seq<byte>, offset: int) returns (ok: bool)
      modifies this
      ensures Valid()
      ensures ok <==> 0 <= offset <= |bytes|
      ensures ok ==> owner == bytes && Contents() == bytes[offset..]
    {
      BytesView(bytes);
      if offset < 0 || offset > size {
        return false;
      }
      data := AddressAt(data, size, offset, size - offset);
      size := size - offset;
      return true;
    }
  }

  /** phd_at, which aborts on a slice outside the buffer; callers prove that it does not. */
  function AddressAt(p: nat, size: nat, offset: nat, count: nat): nat
    requires offset <= size && count <= size - offset
  {
    p + offset
  }

  /** The bytes of storage that holds no junk. */
  function Values(cells: seq<Cell>): (r: seq<byte>)
    requires forall i :: 0 <= i < |cells| ==> cells[i].Byte?
    ensures Cells(r) == cells
  {
    seq(|cells|, i requires 0 <= i < |cells| => cells[i].value)
  }

  lemma ValuesOfCells(s: seq<byte>)
    ensures Values(Cells(s)) == s
  {
  }

  /**
   finish: a result becomes a bytes object, which may fail to be created, and its block is freed.
   Freeing requires the block to be live, so it happens once.
   */
  method Finish(heap: Heap, r: PhdResult, ghost content: seq<byte>) returns (bytes: Result<seq<byte>>)
    requires r.failure.None? ==>
               r.data != null && r.data in heap.live && r.size <= r.data.Length && r.data[..r.size] == Cells(content)
    modifies heap
    ensures r.failure.Some? ==> bytes == Err(r.failure.get) && heap.live == old(heap.live)
    ensures r.failure.None? ==> heap.live == old(heap.live) - {r.data}
    ensures r.failure.None? ==> bytes == Ok(content) || (bytes == Err(Alloc) && heap.Denied())
    ensures old(heap.Denied()) ==> heap.Denied()
  {
    if r.failure.Some? {
      return Err(r.failure.get);
    }
    ValuesOfCells(content);
    bytes := Ok(Values(r.data[..r.size]));
    var granted := heap.Request();
    if !granted {
      bytes := Err(Alloc);
    }
    heap.Free(r.data);
  }

  /** zstd_encode: one call of the bridge and the hand-over; nothing stays allocated. */
  method EncodeToBytes<E(!new), D(!new)>(heap: Heap, lib: Library<E, D>, ghost th: Theory<E, D>,
                                        base: seq<byte>, target: seq<byte>, o: Options.ZstdOptions)
      returns (bytes: Result<seq<byte>>, ghost p: Options.Params)
    requires Correct(lib, th)
    modifies heap
    ensures heap.live == old(heap.live)
    ensures bytes.Ok? ==>
              && Options.Accepts(o) && |base| <= RAW_MAX && |target| <= RAW_MAX
              && Options.Resolved(o, |base|, |target|, lib.automatic(o.level, |target|, |base|), lib.adjust, p)
              && bytes == Payload(lib, th, p, base, target, Encoding.CODEC_SETUP)
    ensures bytes.Err? ==>
              Explained(heap, lib, th, p, base, target, o, RAW_MAX, Encoding.CODEC_SETUP, bytes.status)
  {
    var r, params := PhdZstdEncode(heap, lib, th, base, target, o);
    p := params;
    ghost var content := if r.failure.None? then Payload(lib, th, p, base, target, Encoding.CODEC_SETUP).value else [];
    bytes := Finish(heap, r, content);
  }

  /** Decodes a payload straight into a new object that nobody sees before it is complete. */
  method DecodeToBytes<D(!new)>(heap: Heap, decoder: (nat, seq<byte>) -> Decoder<D>,
                                header: seq<byte> -> SingleFrame.FrameHeader,
                                base: seq<byte>, payload: seq<byte>, size: nat) returns (r: Result<seq<byte>>)
    requires forall w, b :: Bounded(decoder(w, b))
    modifies heap
    ensures heap.live == old(heap.live)
    ensures || (r == Err(Alloc) && heap.Denied())
            || r == SingleFrame.Decode(decoder(ZSTD_WINDOW_LOG_MAX, base), |base|, payload, size, header(payload))
  {
    var granted := heap.Request();
    if !granted {
      return Err(Alloc);
    }
    var target := new Cell[size](_ => Junk);
    var status := PhdZstdApply(heap, decoder, header, base, payload, target);
    if status.Err? {
      return Err(status.status);
    }
    ghost var d := decoder(ZSTD_WINDOW_LOG_MAX, base);
    ghost var content := SingleFrame.Decode(d, |base|, payload, size, header(payload)).value;
    ValuesOfCells(content);
    return Ok(Values(target[..]));
  }

  /** apply: decodes the tail of a blob. */
  method ApplyToBytes<D(!new)>(heap: Heap, decoder: (nat, seq<byte>) -> Decoder<D>,
                               header: seq<byte> -> SingleFrame.FrameHeader,
                               base: seq<byte>, blob: seq<byte>, offset: int, targetSize: int)
      returns (r: Delta.Outcome<seq<byte>>)
    requires forall w, b :: Bounded(decoder(w, b))
    modifies heap
    ensures heap.live == old(heap.live)
    ensures r == Delta.Raised(Delta.BadOffset) <==> !(0 <= offset <= |blob|)
    ensures 0 <= offset <= |blob| && !(0 <= targetSize <= RAW_MAX) ==> r == Delta.Raised(Delta.Native(Limit))
    ensures 0 <= offset <= |blob| && 0 <= targetSize <= RAW_MAX ==>
              || (r == Delta.Raised(Delta.Native(Alloc)) && heap.Denied())
              || r == match SingleFrame.Decode(decoder(ZSTD_WINDOW_LOG_MAX, base), |base|, blob[offset..], targetSize,
                                               header(blob[offset..]))
                      case Ok(content) => Delta.Done(content)
                      case Err(status) => Delta.Raised(Delta.Native(status))
  {
    var payload := new View();
    var ok := payload.TailView(blob, offset);
    if !ok {
      return Delta.Raised(Delta.BadOffset);
    }
    if targetSize < 0 || targetSize > RAW_MAX {
      return Delta.Raised(Delta.Native(Limit));
    }
    var bytes := payload.owner[payload.data..payload.data + payload.size];
    var target := DecodeToBytes(heap, decoder, header, base, bytes, targetSize);
    match target
    case Ok(content) => return Delta.Done(content);
    case Err(status) => return Delta.Raised(Delta.Native(status));
  }

  /**
   The whole path for the zstd codec, through the native layer: encoding against a base and applying
   the payload to it, from inside an envelope, gives the target back unless memory ran out, and
   leaves nothing allocated.  With a reliable library nothing but the options, the sizes and the
   memory can make the encoding fail.
   */
  method EncodeThenApply<E(!new), D(!new)>(heap: Heap, lib: Library<E, D>, ghost th: Theory<E, D>,
                                          base: seq<byte>, target: seq<byte>, o: Options.ZstdOptions,
                                          envelope: seq<byte>)
      returns (encoded: Result<seq<byte>>, decoded: Delta.Outcome<seq<byte>>, ghost p: Options.Params)
    requires Correct(lib, th) && Inverse(lib, th)
    modifies heap
    ensures heap.live == old(heap.live)
    ensures encoded.Ok? ==> decoded == Delta.Done(target) || (decoded == Delta.Raised(Delta.Native(Alloc)) && heap.Denied())
    ensures encoded.Err? ==>
              Explained(heap, lib, th, p, base, target, o, RAW_MAX, Encoding.CODEC_SETUP, encoded.status)
    ensures Options.Accepts(o) && |base| <= RAW_MAX && |target| <= RAW_MAX && Reliable(lib, th) && !heap.Denied() ==>
              if |Whole(lib, th, p, base, target, Encoding.CODEC_SETUP)| <= PAYLOAD_MAX
              then encoded.Ok? && decoded == Delta.Done(target)
              else encoded == Err(Limit)
  {
    encoded, p := EncodeToBytes(heap, lib, th, base, target, o);
    decoded := Delta.Raised(Delta.BadOffset);
    if && Options.Accepts(o) && |base| <= RAW_MAX && |target| <= RAW_MAX
       && Options.Resolved(o, |base|, |target|, lib.automatic(o.level, |target|, |base|), lib.adjust, p) {
      ApplyInvertsEncode(lib, th, o, p, base, target);
    }
    if encoded.Ok? {
      var blob := envelope + encoded.value;
      assert blob[|envelope|..] == encoded.value;
      AllBounded(lib, th);
      decoded := ApplyToBytes(heap, lib.decoder, lib.header, base, blob, |envelope|, |target|);
    }
  }

  lemma AllBounded<E(!new), D(!new)>(lib: Library<E, D>, th: Theory<E, D>)
    requires Correct(lib, th)
    ensures forall w, b :: Bounded(lib.decoder(w, b))
  {
    forall w: nat, b ensures Bounded(lib.decoder(w, b)) {
      assert Decodes(lib.decoder(w, b), th.point, th.script(w, b));
    }
  }
}
