/** The heap and the growable buffer of the bridge. */
module Buffers {
  import opened Basics

  /**
   malloc, realloc and free.  `live` holds the blocks handed out and not yet freed; which requests are
   refused, counted from the first on, is a parameter.
   */
  class Heap {
    const refuses: nat -> bool
    var live: set<array<Cell>>
    var requests: nat

    /** Some request has been refused. */
    ghost predicate Denied()
      reads this
    {
      exists i: nat :: i < requests && refuses(i)
    }

    constructor (refuses: nat -> bool)
      ensures live == {} && this.refuses == refuses && !Denied()
    {
      this.refuses, live, requests := refuses, {}, 0;
    }

    /** Every request is granted or refused as `refuses` says. */
    method Request() returns (granted: bool)
      modifies this`requests
      ensures granted <==> !refuses(old(requests))
      ensures granted ==> Denied() == old(Denied())
      ensures !granted ==> Denied()
      ensures old(Denied()) ==> Denied()
    {
      granted := !refuses(requests);
      requests := requests + 1;
      assert !granted ==> refuses(requests - 1);
      assert granted && Denied() ==> old(Denied());
    }

    /** Grows a block, keeping its cells; the new cells are junk.  On refusal nothing changes. */
    method Realloc(p: array?<Cell>, n: nat) returns (q: array?<Cell>)
      requires p != null ==> p in live && p.Length <= n
      modifies this
      ensures q == null <==> refuses(old(requests))
      ensures q == null ==> Denied() && live == old(live)
      ensures q != null ==>
                && fresh(q) && q.Length == n && Denied() == old(Denied())
                && live == old(live) - (if p == null then {} else {p}) + {q}
                && (forall i :: 0 <= i < n ==>
                      q[i] == if p != null && i < p.Length then old(p[i]) else Junk)
    {
      var granted := Request();
      if !granted {
        return null;
      }
      var b := new Cell[n](_ => Junk);
      if p != null {
        forall i | 0 <= i < p.Length {
          b[i] := p[i];
        }
        live := live - {p};
      }
      live := live + {b};
      return b;
    }

    /** The block must be live, so no block is freed twice. */
    method Free(p: array<Cell>)
      requires p in live
      modifies this
      ensures live == old(live) - {p} && Denied() == old(Denied())
    {
      live := live - {p};
    }
  }

  /** Cells with some bytes written over them. */
  function Patch(cells: seq<Cell>, at: nat, bytes: seq<byte>): (r: seq<Cell>)
    requires at + |bytes| <= |cells|
    ensures |r| == |cells|
    ensures r[at..at + |bytes|] == Cells(bytes)
  {
    cells[..at] + Cells(bytes) + cells[at + |bytes|..]
  }

  lemma PatchesCompose(cells: seq<Cell>, at: nat, a: seq<byte>, b: seq<byte>)
    requires at + |a| + |b| <= |cells|
    ensures Patch(Patch(cells, at, a), at + |a|, b) == Patch(cells, at, a + b)
  {
  }

  /** std::copy into part of a caller's buffer. */
  method Copy(dst: array<Cell>, at: nat, bytes: seq<byte>)
    requires at + |bytes| <= dst.Length
    modifies dst
    ensures dst[..] == Patch(old(dst[..]), at, bytes)
  {
    forall i | 0 <= i < |bytes| {
      dst[at + i] := Byte(bytes[i]);
    }
  }

  /** One request for `need` cells in all: the new capacity, and the old one added to the cost if it moved. */
  function Ask(capacity: nat, cost: nat, need: nat): (nat, nat) {
    if capacity < need then (Max(need, capacity + capacity / 2), cost + capacity) else (capacity, cost)
  }

  function AskAll(capacity: nat, cost: nat, needs: seq<nat>): (nat, nat)
    decreases needs
  {
    if needs == [] then (capacity, cost)
    else var (c, k) := Ask(capacity, cost, needs[0]); AskAll(c, k, needs[1..])
  }

  /** The largest of some requests, and of `m`. */
  function Largest(needs: seq<nat>, m: nat): (r: nat)
    ensures r >= m
  {
    if needs == [] then m else Largest(needs[1..], Max(m, needs[0]))
  }

  /** Growing is amortised: whatever is asked for, moving costs at most three times the final capacity. */
  lemma {:induction false} GrowthIsAmortised(reserve: nat, capacity: nat, cost: nat, asked: nat, needs: seq<nat>)
    requires cost <= 3 * capacity
    requires capacity <= Max(reserve, asked + asked / 2)
    ensures var (c, k) := AskAll(capacity, cost, needs);
            && k <= 3 * c
            && capacity <= c <= Max(reserve, Largest(needs, asked) + Largest(needs, asked) / 2)
            && (forall n :: n in needs ==> n <= c)
    decreases needs
  {
    if needs != [] {
      var (c, k) := Ask(capacity, cost, needs[0]);
      GrowthIsAmortised(reserve, c, k, Max(asked, needs[0]), needs[1..]);
      forall n | n in needs ensures n <= AskAll(c, k, needs[1..]).0 {
        if n != needs[0] { assert n in needs[1..]; }
      }
    }
  }

  /**
   Growable: a block that grows without being filled; the first `size` cells are its contents.
   Ghost state holds the contents, and records what growing has cost and what was asked for.
   */
  class Growable {
    const heap: Heap
    var data: array?<Cell>
    var size: nat
    var capacity: nat

    ghost var contents: seq<Cell>
    ghost var copied: nat     // the capacities of all blocks that were reallocated, summed
    ghost var peak: nat       // the largest size() + minimum ever requested
    ghost var reserved: nat   // the initial reserve

    ghost predicate Valid()
      reads this, heap, data
    {
      && |contents| == size <= capacity
      && (data == null ==> capacity == 0)
      && (data != null ==> data in heap.live && data.Length == capacity && contents == data[..size])
      && copied <= 3 * capacity
      && capacity <= Max(reserved, peak + peak / 2)
    }

    ghost function Block(): set<array<Cell>>
      reads this
    {
      if data == null then {} else {data}
    }

    constructor (heap: Heap)
      ensures Valid() && this.heap == heap && data == null && contents == []
      ensures copied == 0 && peak == 0 && reserved == 0
    {
      this.heap := heap;
      data, size, capacity, contents := null, 0, 0, [];
      copied, peak, reserved := 0, 0, 0;
    }

    /** The reserve of the constructor; false means std::bad_alloc. */
    method Reserve(n: nat) returns (ok: bool)
      requires Valid() && data == null
      modifies this, heap
      ensures Valid() && contents == [] && copied == 0 && peak == old(peak)
      ensures ok ==> capacity == n && reserved == n && heap.Denied() == old(heap.Denied())
      ensures !ok ==> heap.Denied() && data == null
      ensures heap.live == old(heap.live) + Block() && fresh(Block())
    {
      ok := true;
      reserved := n;
      if n != 0 {
        ok := GrowTo(n);
      }
    }

    method GrowTo(n: nat) returns (ok: bool)
      requires Valid() && capacity < n <= Max(reserved, peak + peak / 2)
      requires copied + capacity <= 3 * n
      modifies this`data, this`capacity, this`copied, heap
      ensures Valid()
      ensures heap.live == old(heap.live) - old(Block()) + Block()
      ensures ok ==>
                && capacity == n && fresh(Block()) && data != null && heap.Denied() == old(heap.Denied())
                && copied == old(copied + capacity)
      ensures !ok ==> heap.Denied() && data == old(data) && capacity == old(capacity) && copied == old(copied)
    {
      var p := heap.Realloc(data, n);
      ok := p != null;
      if ok {
        assert p[..size] == contents;
        copied := copied + capacity;
        data, capacity := p, n;
      }
    }

    /** Makes sure of `minimum` cells past the contents. */
    method Spare(minimum: nat) returns (ok: bool)
      requires Valid()
      modifies this`data, this`capacity, this`copied, this`peak, heap
      ensures Valid() && peak == Max(old(peak), size + minimum)
      ensures heap.live == old(heap.live) - old(Block()) + Block()
      ensures ok ==> (capacity, copied) == Ask(old(capacity), old(copied), size + minimum)
      ensures ok ==> heap.Denied() == old(heap.Denied())
      ensures !ok ==> heap.Denied()
      ensures data == old(data) || fresh(Block())
      ensures old(capacity) - size >= minimum ==> ok && data == old(data) && copied == old(copied)
    {
      ok := true;
      peak := Max(peak, size + minimum);
      if capacity - size < minimum {
        ok := GrowTo(Max(size + minimum, capacity + capacity / 2));
      }
    }

    /** Changes the size; cells claimed this way keep whatever was in them. */
    method Resize(n: nat) returns (ok: bool)
      requires Valid()
      modifies this`data, this`capacity, this`copied, this`peak, this`size, this`contents, heap
      ensures Valid()
      ensures heap.live == old(heap.live) - old(Block()) + Block()
      ensures data == old(data) || fresh(Block())
      ensures peak == if n > old(size) then Max(old(peak), n) else old(peak)
      ensures ok ==> size == n && heap.Denied() == old(heap.Denied())
      ensures ok ==> contents[..Min(n, old(size))] == old(contents)[..Min(n, old(size))]
      ensures !ok ==> heap.Denied() && contents == old(contents)
      ensures n <= old(capacity) ==> ok && data == old(data) && capacity == old(capacity) && copied == old(copied)
      ensures n <= old(capacity) && data != null ==> contents == old(data[..n])
    {
      ok := true;
      if n > size {
        ok := Spare(n - size);
      }
      if ok {
        var kept := Min(n, size);
        assert data != null ==> data[..n][..kept] == contents[..kept];
        size := n;
        contents := if data == null then [] else data[..n];
      }
    }

    /** A codec writes `b` into the spare cells, from the first one on. */
    method Fill(b: seq<byte>)
      requires Valid() && |b| <= capacity - size
      modifies data
      ensures Valid()
      ensures data != null ==> data[..size + |b|] == contents + Cells(b)
    {
      if data != null {
        Copy(data, size, b);
        assert data[..size + |b|] == contents + Cells(b);
      }
    }

    /** Overwrites contents in place. */
    method Overwrite(pos: nat, b: seq<byte>)
      requires Valid() && pos + |b| <= size
      modifies data, this`contents
      ensures Valid() && contents == Patch(old(contents), pos, b)
    {
      if data != null {
        Copy(data, pos, b);
        assert data[..size] == Patch(contents, pos, b);
        contents := Patch(contents, pos, b);
      }
    }

    method Append(b: seq<byte>) returns (ok: bool)
      requires Valid()
      modifies this`data, this`capacity, this`copied, this`peak, this`size, this`contents, heap, data
      ensures Valid()
      ensures heap.live == old(heap.live) - old(Block()) + Block()
      ensures data == old(data) || fresh(Block())
      ensures ok ==> contents == old(contents) + Cells(b) && heap.Denied() == old(heap.Denied())
      ensures !ok ==> heap.Denied() && contents == old(contents)
    {
      ok := Spare(|b|);
      if ok {
        Fill(b);
        size, contents := size + |b|, contents + Cells(b);
      }
    }

    /** The destructor. */
    method Destroy()
      requires Valid()
      modifies this`data, this`capacity, this`size, this`copied, this`contents, heap
      ensures Valid() && data == null
      ensures heap.live == old(heap.live) - old(Block()) && heap.Denied() == old(heap.Denied())
    {
      if data != null {
        heap.Free(data);
      }
      data, capacity, size, copied, contents := null, 0, 0, 0, [];
    }

    /** Hands the block to the caller, who gets a block even when there are no contents. */
    method Release() returns (block: array?<Cell>, n: nat)
      requires Valid()
      modifies this`data, this`capacity, this`copied, this`peak, heap
      ensures data == null && n == |contents|
      ensures block != null ==>
                && heap.live == old(heap.live) - old(Block()) + {block} && n <= block.Length
                && block[..n] == contents && heap.Denied() == old(heap.Denied())
                && (block == old(data) || fresh(block))
      ensures block == null ==> heap.Denied() && old(data) == null && heap.live == old(heap.live)
    {
      if data == null {
        peak := Max(peak, 1);
        var ok := GrowTo(1);
      }
      block, n := data, size;
      data, capacity, copied := null, 0, 0;
    }
  }
}
