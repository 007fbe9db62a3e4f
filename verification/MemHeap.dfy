/** memheap_ of ec_alloctor.h: blocks of one size with the free list threaded through the free blocks. */
module Heaps {
  // A block: the header naming its heap, and the link that its memory holds while it is free. A live
  // block belongs to the client, which may write anything there.
  class Block {
    const heap: MemHeap
    var pnext: Block?

    constructor (h: MemHeap)
      ensures heap == h && pnext == null
    {
      heap := h;
      pnext := null;
    }
  }

  class MemHeap {
    const numblk: nat
    const sizeblk: nat
    var numfree: nat
    var phead: Block?
    var pnext: MemHeap?
    ghost var blocks: set<Block>      // every block of the heap
    ghost var free: seq<Block>        // the free list

    ghost function Live(): set<Block>
      reads `blocks, `free
    {
      set b | b in blocks && b !in free
    }

    // The free list runs through distinct blocks of the heap.
    ghost predicate Valid()
      reads `numfree, `phead, `blocks, `free, blocks
    {
      && numblk > 0 && |blocks| == numblk && numfree == |free|
      && (forall b :: b in blocks ==> b.heap == this)
      && (forall i :: 0 <= i < |free| ==> free[i] in blocks)
      && (forall i, j :: 0 <= i < j < |free| ==> free[i] != free[j])
      && phead == (if |free| == 0 then null else free[0])
      && Threaded(free)
    }

    ghost predicate Threaded(bs: seq<Block>)
      reads bs`pnext
    {
      && (forall i :: 0 <= i < |bs| - 1 ==> bs[i].pnext == bs[i + 1])
      && (|bs| > 0 ==> bs[|bs| - 1].pnext == null)
    }

    constructor (size: nat, n: nat)
      requires n > 0
      ensures Valid() && numblk == n && sizeblk == size && numfree == n && Live() == {} && pnext == null
      ensures fresh(blocks)
    {
      numblk, sizeblk, numfree, phead, pnext := n, size, n, null, null;
      blocks, free := {}, [];
      new;
      hide Valid, Live, Threaded;
      var mem := AllocateBlocks(n);
      LinkBlocks(mem);
      phead := mem[0];
      free := mem;
      blocks := set b | b in mem;
      SetSize(mem, blocks);
      AllFree();
    }

    // The list of all blocks is a free list.
    lemma AllFree()
      requires numblk > 0 && numfree == numblk == |free| == |blocks| && blocks == (set b | b in free) && phead == free[0]
      requires forall i, j :: 0 <= i < j < |free| ==> free[i] != free[j]
      requires Threaded(free) && forall i :: 0 <= i < |free| ==> free[i].heap == this
      ensures Valid() && Live() == {}
    {
    }

    method LinkBlocks(mem: seq<Block>)
      requires |mem| > 0 && forall i, j :: 0 <= i < j < |mem| ==> mem[i] != mem[j]
      modifies mem
      ensures Threaded(mem)
    {
      var i := 0;
      while i < |mem|
        invariant i <= |mem|
        invariant forall k :: 0 <= k < i && k < |mem| - 1 ==> mem[k].pnext == mem[k + 1]
        invariant i == |mem| ==> mem[|mem| - 1].pnext == null
      {
        if i + 1 == |mem| {
          mem[i].pnext := null;
        } else {
          mem[i].pnext := mem[i + 1];
        }
        i := i + 1;
      }
    }

    // The memory of the heap, each block with its header.
    method AllocateBlocks(n: nat) returns (mem: seq<Block>)
      ensures |mem| == n && (forall i, j :: 0 <= i < j < n ==> mem[i] != mem[j])
      ensures forall i :: 0 <= i < n ==> fresh(mem[i]) && mem[i].heap == this
    {
      mem := [];
      while |mem| < n
        invariant |mem| <= n && (forall i, j :: 0 <= i < j < |mem| ==> mem[i] != mem[j])
        invariant forall i :: 0 <= i < |mem| ==> fresh(mem[i]) && mem[i].heap == this
      {
        var b := new Block(this);
        mem := mem + [b];
      }
    }

    /** malloc_: the head of the free list; no block is written. */
    method Malloc() returns (r: Block?)
      requires Valid()
      modifies `numfree, `phead, `free
      ensures Valid()
      ensures r == null <==> |old(free)| == 0
      ensures if r == null then unchanged(this) else [r] + free == old(free) && numfree == old(numfree) - 1
      ensures r == old(phead)
      ensures r != null ==> r in blocks && r !in old(Live()) && Live() == old(Live()) + {r}
    {
      if phead == null {
        return null;
      }
      FreeParts(free);
      r := phead;
      phead := phead.pnext;
      numfree := numfree - 1;
      free := free[1..];
    }

    // The free list without its head.
    lemma FreeParts(bs: seq<Block>)
      requires |bs| > 0 && Threaded(bs) && forall i, j :: 0 <= i < j < |bs| ==> bs[i] != bs[j]
      ensures var t := bs[1..];
              && Threaded(t) && bs[0].pnext == (if |t| == 0 then null else t[0]) && bs == [bs[0]] + t
              && (forall i, j :: 0 <= i < j < |t| ==> t[i] != t[j]) && (forall i :: 0 <= i < |t| ==> t[i] != bs[0] && t[i] in bs)
    {
    }

    /** free_: a live block goes to the front of the free list; only that block is written. */
    method Free(p: Block)
      requires Valid() && p in Live()
      modifies `numfree, `phead, `free, p
      ensures Valid()
      ensures free == [p] + old(free) && numfree == old(numfree) + 1 && Live() == old(Live()) - {p}
    {
      hide Threaded;
      ghost var bs := free;
      p.pnext := phead;
      FreeOneMore(p, bs);
      phead := p;
      numfree := numfree + 1;
      free := [p] + bs;
    }

    // The free list with a new head.
    lemma FreeOneMore(p: Block, bs: seq<Block>)
      requires p !in bs && Threaded(bs) && (forall i, j :: 0 <= i < j < |bs| ==> bs[i] != bs[j])
      requires p.pnext == (if |bs| == 0 then null else bs[0])
      ensures var s := [p] + bs;
              Threaded(s) && (forall i, j :: 0 <= i < j < |s| ==> s[i] != s[j]) && forall b :: b in s <==> b == p || b in bs
    {
      var s := [p] + bs;
      assert forall i :: 0 < i < |s| ==> s[i] == bs[i - 1];
    }

    // Free and live blocks partition the heap.
    lemma LiveCount()
      requires Valid()
      ensures Live() <= blocks && |Live()| == numblk - numfree
      ensures forall b :: b in Live() ==> b in blocks && b !in free
    {
      var f := set b | b in free;
      SetSize(free, f);
      assert Live() == blocks - f && f <= blocks;
    }
  }

  lemma {:induction false} SetSize<T>(s: seq<T>, f: set<T>)
    requires (forall i, j :: 0 <= i < j < |s| ==> s[i] != s[j]) && f == set x | x in s
    ensures |f| == |s|
    decreases |s|
  {
    if s != [] {
      var t := s[1..];
      SetSize(t, set x | x in t);
      assert f == {s[0]} + set x | x in t;
    }
  }
}
