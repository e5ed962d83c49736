/** The streams that HDiffPatch reads from and writes its diff to. */
module Streams {
  import opened Basics
  import opened Buffers

  /** Input::read: a copy of a range, refused when it is not inside. */
  function ReadAt(bytes: seq<byte>, pos: nat, n: nat): Maybe<seq<byte>> {
    if pos > |bytes| || n > |bytes| - pos then None else Some(bytes[pos..pos + n])
  }

  /** A write over, and possibly past the end of, a file without holes. */
  function WriteAt(file: seq<byte>, pos: nat, src: seq<byte>): (r: seq<byte>)
    requires pos <= |file|
    ensures |r| == Max(|file|, pos + |src|)
  {
    var finish := pos + |src|;
    file[..pos] + src + (if finish < |file| then file[finish..] else [])
  }

  datatype Write = Write(pos: nat, src: seq<byte>)

  /** The writes so far, latest outermost. */
  datatype Log = Empty | Then(earlier: Log, last: Write)

  /** Every write starts inside, or at the end of, what the writes before it produced. */
  predicate Accepted(log: Log)
    decreases log, 0
  {
    log.Empty? || (Accepted(log.earlier) && log.last.pos <= |Replay(log.earlier)|)
  }

  function Replay(log: Log): seq<byte>
    requires Accepted(log)
    decreases log, 1
  {
    if log.Empty? then [] else WriteAt(Replay(log.earlier), log.last.pos, log.last.src)
  }

  predicate Covers(w: Write, i: nat) {
    w.pos <= i < w.pos + |w.src|
  }

  /** The latest write over position `i`. */
  function LatestAt(log: Log, i: nat): Maybe<Write> {
    if log.Empty? then None
    else if Covers(log.last, i) then Some(log.last)
    else LatestAt(log.earlier, i)
  }

  /**
   The file is what was written and nothing else: a position is inside exactly when some write
   covered it, and holds what the latest of those put there.  Nothing is left over from the
   allocator.
   */
  lemma {:induction false} FileIsWhatWasWritten(log: Log, i: nat)
    requires Accepted(log)
    ensures i < |Replay(log)| <==> LatestAt(log, i).Some?
    ensures i < |Replay(log)| ==>
              && var w := LatestAt(log, i).get;
              && Covers(w, i) && Replay(log)[i] == w.src[i - w.pos]
  {
    if log.Then? {
      FileIsWhatWasWritten(log.earlier, i);
    }
  }

  /** Writing two pieces one behind the other is writing their concatenation. */
  lemma WritesCompose(file: seq<byte>, pos: nat, a: seq<byte>, b: seq<byte>)
    requires pos <= |file|
    ensures pos + |a| <= |WriteAt(file, pos, a)|
    ensures WriteAt(WriteAt(file, pos, a), pos + |a|, b) == WriteAt(file, pos, a + b)
  {
    var f := WriteAt(file, pos, a);
    assert f[..pos + |a|] == file[..pos] + a;
    var l, r := WriteAt(f, pos + |a|, b), WriteAt(file, pos, a + b);
    assert |l| == |r|;
    forall i | 0 <= i < |l| ensures l[i] == r[i] {
      if i >= pos + |a| + |b| {
        assert r[i] == file[i] && f[i] == file[i] && l[i] == f[i];
      }
    }
  }

  /** Once the new tail is claimed, overwriting cells is writing bytes, whatever the tail held. */
  lemma OverwriteIsWriteAt(file: seq<byte>, cells: seq<Cell>, pos: nat, src: seq<byte>)
    requires pos <= |file| && |cells| == Max(|file|, pos + |src|)
    requires cells[..|file|] == Cells(file)
    ensures Patch(cells, pos, src) == Cells(WriteAt(file, pos, src))
  {
    var l, r := Patch(cells, pos, src), Cells(WriteAt(file, pos, src));
    assert |l| == |r|;
    forall i | 0 <= i < |l| ensures l[i] == r[i] {
      if i < pos || i >= pos + |src| {
        assert l[i] == cells[i] && i < |file|;
        assert cells[i] == cells[..|file|][i];
      }
    }
  }

  class Output {
    const limit: nat
    const bytes: Growable
    ghost var log: Log
    ghost var file: seq<byte>    // what the accepted writes amount to

    ghost predicate Valid()
      reads this, bytes, bytes.heap, bytes.data
    {
      && bytes.Valid()
      && bytes.contents == Cells(file)
      && |file| <= limit
      && Accepted(log) && file == Replay(log)
    }

    constructor (heap: Heap, limit: nat)
      ensures Valid() && this.limit == limit && bytes.heap == heap && log == Empty
      ensures fresh(bytes) && bytes.data == null
    {
      this.limit := limit;
      bytes := new Growable(heap);
      log, file := Empty, [];
    }

    /** The accepted part of a write: claim the new tail, then copy over it. */
    method Store(ghost file: seq<byte>, pos: nat, src: seq<byte>) returns (ok: bool)
      requires bytes.Valid() && bytes.contents == Cells(file) && pos <= |file|
      modifies bytes, bytes.heap, bytes.data
      ensures bytes.Valid()
      ensures bytes.heap.live == old(bytes.heap.live) - old(bytes.Block()) + bytes.Block()
      ensures bytes.data == old(bytes.data) || fresh(bytes.Block())
      ensures ok ==> bytes.contents == Cells(WriteAt(file, pos, src))
      ensures ok ==> bytes.heap.Denied() == old(bytes.heap.Denied())
      ensures !ok ==> bytes.contents == Cells(file) && bytes.heap.Denied()
    {
      ok := true;
      var finish := pos + |src|;
      if finish > bytes.size {
        ok := bytes.Resize(finish);
      }
      if ok {
        ghost var claimed := bytes.contents;
        assert claimed[..|file|] == Cells(file);
        bytes.Overwrite(pos, src);
        OverwriteIsWriteAt(file, claimed, pos, src);
      }
    }

    method Put(pos: nat, src: seq<byte>) returns (r: Result<()>)
      requires Valid()
      modifies this, bytes, bytes.heap, bytes.data
      ensures Valid()
      ensures bytes.heap.live == old(bytes.heap.live) - old(bytes.Block()) + bytes.Block()
      ensures bytes.data == old(bytes.data) || fresh(bytes.Block())
      ensures r.Ok? ==>
                && pos <= |old(file)| && pos + |src| <= limit
                && log == Then(old(log), Write(pos, src)) && file == WriteAt(old(file), pos, src)
      ensures r.Err? ==> log == old(log) && file == old(file)
      ensures r == Err(Limit) <==> pos + |src| > limit
      ensures r == Err(Invalid) <==> pos + |src| <= limit && pos > |old(file)|
      ensures r.Ok? || r.status == Limit || r.status == Invalid || (r.status == Alloc && bytes.heap.Denied())
      ensures r != Err(Alloc) ==> bytes.heap.Denied() == old(bytes.heap.Denied())
    {
      if !(pos <= limit && |src| <= limit - pos) {
        return Err(Limit);
      }
      if !(pos <= bytes.size) {
        return Err(Invalid);
      }
      var ok := Store(file, pos, src);
      if !ok {
        return Err(Alloc);
      }
      log, file := Then(log, Write(pos, src)), WriteAt(file, pos, src);
      return Ok(());
    }
  }
}
