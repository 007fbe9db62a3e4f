/** blk_alloctor of ec_alloctor.h: a list of heaps with one more heap when no block is free, the heap that
    served last moved to the front, and garbage collection of heaps without a live block. */
module Alloctor {
  import opened Heaps

  const GC_MINHEAPS := 3      // EC_ALLOCTOR_GC_MINHEAPS

  // ---- sequences of heaps ----

  ghost predicate Distinct(hs: seq<MemHeap>) {
    forall i, j :: 0 <= i < j < |hs| ==> hs[i] != hs[j]
  }

  ghost predicate Linked(hs: seq<MemHeap>)
    reads hs`pnext
  {
    && (forall i :: 0 <= i < |hs| - 1 ==> hs[i].pnext == hs[i + 1])
    && (|hs| > 0 ==> hs[|hs| - 1].pnext == null)
  }

  ghost predicate Chain(hs: seq<MemHeap>, first: MemHeap?)
    reads hs`pnext
  {
    Distinct(hs) && Linked(hs) && first == (if |hs| == 0 then null else hs[0])
  }

  lemma ChainCons(h: MemHeap, hs: seq<MemHeap>)
    requires h !in hs && Chain(hs, h.pnext)
    ensures Chain([h] + hs, h)
  {
    var s := [h] + hs;
    assert forall i :: 0 < i < |s| ==> s[i] == hs[i - 1];
  }

  ghost function TotalFree(hs: seq<MemHeap>): nat
    reads hs`numfree
  {
    if hs == [] then 0 else hs[0].numfree + TotalFree(hs[1..])
  }

  lemma {:induction false} TotalConcat(a: seq<MemHeap>, b: seq<MemHeap>)
    ensures TotalFree(a + b) == TotalFree(a) + TotalFree(b)
  {
    if a == [] {
      assert a + b == b;
    } else {
      assert (a + b)[1..] == a[1..] + b;
      TotalConcat(a[1..], b);
    }
  }

  lemma {:induction false} NoneFree(hs: seq<MemHeap>)
    requires forall i :: 0 <= i < |hs| ==> hs[i].numfree == 0
    ensures TotalFree(hs) == 0
  {
    if hs != [] {
      NoneFree(hs[1..]);
    }
  }

  function Sum(ns: seq<nat>): nat { if ns == [] then 0 else ns[0] + Sum(ns[1..]) }

  ghost function Counts(hs: seq<MemHeap>): (ns: seq<nat>)
    reads hs`numfree
    ensures |ns| == |hs| && forall i :: 0 <= i < |hs| ==> ns[i] == hs[i].numfree
  {
    if hs == [] then [] else [hs[0].numfree] + Counts(hs[1..])
  }

  lemma {:induction false} TotalIsSum(hs: seq<MemHeap>, ns: seq<nat>)
    requires |ns| == |hs| && forall i :: 0 <= i < |hs| ==> ns[i] == hs[i].numfree
    ensures TotalFree(hs) == Sum(ns)
  {
    if hs != [] {
      TotalIsSum(hs[1..], ns[1..]);
    }
  }

  lemma {:induction false} SumChanged(ns: seq<nat>, k: nat, x: nat)
    requires k < |ns|
    ensures Sum(ns[k := x]) == Sum(ns) + x - ns[k]
  {
    var m := ns[k := x];
    if k == 0 {
      assert m[1..] == ns[1..];
    } else {
      assert m[1..] == ns[1..][k - 1 := x];
      SumChanged(ns[1..], k - 1, x);
    }
  }

  // ns were the counts before the heap at k changed.
  lemma TotalChanged(hs: seq<MemHeap>, ns: seq<nat>, k: nat)
    requires k < |hs| == |ns| && forall i :: 0 <= i < |hs| && i != k ==> hs[i].numfree == ns[i]
    ensures TotalFree(hs) == Sum(ns) + hs[k].numfree - ns[k]
  {
    SumChanged(ns, k, hs[k].numfree);
    TotalIsSum(hs, ns[k := hs[k].numfree]);
  }

  // The heap at k moved to the front.
  function ToFront<T>(s: seq<T>, k: nat): seq<T>
    requires k < |s|
  {
    [s[k]] + s[..k] + s[k + 1..]
  }

  lemma FrontHeaps(hs: seq<MemHeap>, k: nat)
    requires k < |hs|
    ensures var m := ToFront(hs, k);
            && |m| == |hs| && TotalFree(m) == TotalFree(hs)
            && (Distinct(hs) ==> Distinct(m)) && forall h :: h in m <==> h in hs
  {
    hide TotalFree, ToFront, Distinct;
    FrontAt(hs, k);
    FrontTotal(hs, k);
    FrontDistinct(hs, k);
  }

  lemma FrontTotal(hs: seq<MemHeap>, k: nat)
    requires k < |hs|
    ensures TotalFree(ToFront(hs, k)) == TotalFree(hs)
  {
    hide TotalFree;
    var a, b, c := hs[..k], [hs[k]], hs[k + 1..];
    assert hs == a + b + c;
    TotalConcat(a + b, c);
    TotalConcat(a, b);
    TotalConcat(b + a, c);
    TotalConcat(b, a);
  }

  lemma FrontDistinct(hs: seq<MemHeap>, k: nat)
    requires k < |hs|
    ensures Distinct(hs) ==> Distinct(ToFront(hs, k))
  {
    hide ToFront;
    FrontAt(hs, k);
  }

  lemma FrontAt<T>(s: seq<T>, k: nat)
    requires k < |s|
    ensures var m := ToFront(s, k);
            && |m| == |s| && (forall j :: 0 <= j < |m| ==> m[j] == s[if j == 0 then k else if j <= k then j - 1 else j])
            && (forall i :: 0 <= i < |s| ==> s[i] == m[if i == k then 0 else if i < k then i + 1 else i])
            && (forall x :: x in m <==> x in s)
  {
    var m := ToFront(s, k);
    forall x | x in s ensures x in m {
      var i :| 0 <= i < |s| && s[i] == x;
      assert m[if i == k then 0 else if i < k then i + 1 else i] == x;
    }
  }

  // gc_ drops the heaps whose blocks are all free.
  ghost function Kept(hs: seq<MemHeap>): (r: seq<MemHeap>)
    reads hs`numfree
    ensures |r| <= |hs|
    ensures forall h :: h in r ==> h in hs && h.numfree != h.numblk
    ensures forall h :: h in hs && h.numfree != h.numblk ==> h in r
  {
    if hs == [] then [] else
    (if hs[0].numfree == hs[0].numblk then [] else [hs[0]]) + Kept(hs[1..])
  }

  lemma {:induction false} KeptDistinct(hs: seq<MemHeap>)
    requires Distinct(hs)
    ensures Distinct(Kept(hs))
  {
    if hs != [] {
      KeptDistinct(hs[1..]);
    }
  }

  lemma KeptNone()
    ensures Kept([]) == []
  {
  }

  lemma KeptFirst(hs: seq<MemHeap>)
    requires hs != []
    ensures Kept(hs) == (if hs[0].numfree == hs[0].numblk then [] else [hs[0]]) + Kept(hs[1..])
  {
  }

  lemma {:induction false} KeptConcat(a: seq<MemHeap>, b: seq<MemHeap>)
    ensures Kept(a + b) == Kept(a) + Kept(b)
  {
    hide Kept;
    if a == [] {
      KeptNone();
      assert a + b == b && [] + Kept(b) == Kept(b);
    } else {
      KeptConcat(a[1..], b);
      KeptFirst(a);
      KeptFirst(a + b);
      assert (a + b)[1..] == a[1..] + b && (a + b)[0] == a[0];
      var first := if a[0].numfree == a[0].numblk then [] else [a[0]];
      assert first + (Kept(a[1..]) + Kept(b)) == first + Kept(a[1..]) + Kept(b);
    }
  }

  // Every heap is in order and has n blocks of one size.
  ghost predicate HeapsOk(hs: seq<MemHeap>, n: nat, size: nat)
    reads hs`numfree, hs`phead, hs`blocks, hs`free, set h, b | h in hs && b in h.blocks :: b
  {
    forall i :: 0 <= i < |hs| ==> hs[i].Valid() && hs[i].numblk == n && hs[i].sizeblk == size
  }

  ghost function LiveOf(hs: seq<MemHeap>): set<Block>
    reads hs`blocks, hs`free
  {
    set h, b | h in hs && b in h.Live() :: b
  }

  lemma LiveConcat(a: seq<MemHeap>, b: seq<MemHeap>)
    ensures LiveOf(a + b) == LiveOf(a) + LiveOf(b)
  {
  }

  lemma LiveOne(h: MemHeap)
    ensures LiveOf([h]) == h.Live()
  {
    forall b | b in h.Live() ensures b in LiveOf([h]) {
      assert h in [h];
    }
  }

  lemma LiveSame(a: seq<MemHeap>, b: seq<MemHeap>)
    requires (forall h :: h in a ==> h in b) && (forall h :: h in b ==> h in a)
    ensures LiveOf(a) == LiveOf(b)
  {
  }

  lemma HeapsSame(a: seq<MemHeap>, b: seq<MemHeap>, n: nat, size: nat)
    requires HeapsOk(a, n, size) && forall h :: h in b ==> h in a
    ensures HeapsOk(b, n, size)
  {
    forall i | 0 <= i < |b| ensures b[i] in a {}
  }

  // Only the heap at k has changed, and no block outside it.
  twostate predicate OthersKept(hs: seq<MemHeap>, new k: nat)
    requires k < |hs|
    reads hs, set h, b | h in hs && b in h.blocks :: b
  {
    && (forall i :: 0 <= i < |hs| && i != k ==> unchanged(hs[i]))
    && (forall i, b :: 0 <= i < |hs| && i != k && b in hs[i].blocks ==> old(allocated(b)) && unchanged(b))
  }

  twostate lemma HeapsKept(hs: seq<MemHeap>, new k: nat, new n: nat, new size: nat)
    requires k < |hs|
    requires old(HeapsOk(hs, n, size))
    requires OthersKept(hs, k)
    requires hs[k].Valid()
    ensures HeapsOk(hs, n, size)
  {
    forall i | 0 <= i < |hs| && i != k ensures hs[i].Valid() {
      assert old(hs[i].Valid());
    }
  }

  twostate lemma LiveChanged(hs: seq<MemHeap>, new k: nat, new plus: set<Block>, new minus: set<Block>)
    requires k < |hs|
    requires Distinct(hs)
    requires OthersKept(hs, k)
    requires hs[k].Live() == old(hs[k].Live()) + plus - minus
    requires forall i, b :: 0 <= i < |hs| && b in old(hs[i].Live()) && b in minus ==> i == k
    ensures LiveOf(hs) == old(LiveOf(hs)) + plus - minus
  {
    forall i | 0 <= i < |hs| && i != k ensures hs[i].Live() == old(hs[i].Live()) {
    }
    forall b | b in LiveOf(hs) ensures b in old(LiveOf(hs)) + plus - minus {
      var h :| h in hs && b in h.Live();
      var i :| 0 <= i < |hs| && hs[i] == h;
    }
    forall b | b in old(LiveOf(hs)) + plus - minus ensures b in LiveOf(hs) {
      if b in plus {
        assert b in hs[k].Live();
      } else {
        var h :| h in hs && b in old(h.Live());
        var i :| 0 <= i < |hs| && hs[i] == h;
        assert b in hs[i].Live();
      }
    }
  }

  class BlkAlloctor {
    const sizeblk: nat
    const numblksperheap: nat
    var phead: MemHeap?
    var numheaps: nat
    var numfreeblks: nat
    ghost var heaps: seq<MemHeap>

    ghost predicate Valid()
      reads this, heaps, set h, b | h in heaps && b in h.blocks :: b
    {
      && numblksperheap > 0
      && Chain(heaps, phead)
      && numheaps == |heaps| && numfreeblks == TotalFree(heaps) && HeapsOk(heaps, numblksperheap, sizeblk)
    }

    // The blocks handed out and not yet given back.
    ghost function Live(): set<Block>
      reads this`heaps, heaps`blocks, heaps`free
    {
      LiveOf(heaps)
    }

    // The objects the allocator writes to: itself, its heaps and their blocks.
    ghost function Repr(): set<object>
      reads this`heaps, heaps`blocks
    {
      {this} + (set h: object | h in heaps) + set h: MemHeap, b: Block | h in heaps && b in h.blocks :: b as object
    }

    lemma LiveInRepr(b: Block)
      requires b in Live()
      ensures b in Repr()
    {
    }

    twostate lemma ReprKept()
      requires forall h :: h in heaps ==> h in old(heaps)
      requires forall h :: h in heaps ==> h.blocks == old(h.blocks)
      ensures Repr() <= old(Repr())
    {
    }

    // init, with or without a first heap.
    constructor (size: nat, numblk: nat, alloc: bool)
      requires numblk > 0
      ensures Valid() && sizeblk == size && numblksperheap == numblk && Live() == {}
      ensures numheaps == (if alloc then 1 else 0) && numfreeblks == numheaps * numblk
    {
      sizeblk, numblksperheap, phead, numheaps, numfreeblks, heaps := size, numblk, null, 0, 0, [];
      new;
      if alloc {
        var h := new MemHeap(size, numblk);
        phead, numheaps, numfreeblks, heaps := h, 1, numblk, [h];
        assert [h][1..] == [];
        LiveOne(h);
      }
    }

    // A new heap in front of the list, with its first block taken.
    method NewHeap(ghost live: set<Block>) returns (h: MemHeap, r: Block)
      requires numblksperheap > 0
      ensures r !in live
      ensures fresh(h) && fresh(h.blocks) && r in h.blocks && h.pnext == phead && h.Valid() && h.Live() == {r}
      ensures h.numblk == numblksperheap && h.sizeblk == sizeblk && h.numfree == numblksperheap - 1
    {
      h := new MemHeap(sizeblk, numblksperheap);
      h.pnext := phead;
      var b := h.Malloc();
      r := b;
    }

    // No block is free: one more heap, in front.
    method Grow() returns (r: Block)
      requires Valid() && numfreeblks == 0
      modifies this`phead, this`numfreeblks, this`numheaps, this`heaps
      ensures Valid() && fresh(r.heap) && fresh(r) && heaps == [r.heap] + old(heaps) && r.heap.sizeblk == sizeblk
      ensures r !in old(Live()) && Live() == old(Live()) + {r} && numfreeblks == numblksperheap - 1
      ensures forall o :: o in Repr() ==> o in old(Repr()) || fresh(o)
    {
      hide HeapsOk, LiveOf, TotalFree, Chain;
      ghost var hs := heaps;
      var h;
      h, r := NewHeap(Live());
      ChainCons(h, hs);
      FreshHeap(h, r, hs);
      phead := h;
      numheaps := numheaps + 1;
      numfreeblks := numfreeblks + numblksperheap - 1;
      heaps := [h] + hs;
    }

    lemma FreshHeap(h: MemHeap, r: Block, hs: seq<MemHeap>)
      requires h.Valid() && h.numblk == numblksperheap && h.sizeblk == sizeblk && h.Live() == {r}
      requires HeapsOk(hs, numblksperheap, sizeblk)
      ensures LiveOf([h] + hs) == LiveOf(hs) + {r} && HeapsOk([h] + hs, numblksperheap, sizeblk)
      ensures TotalFree([h] + hs) == h.numfree + TotalFree(hs) && r.heap == h
    {
      LiveConcat([h], hs);
      LiveOne(h);
      assert r in h.Live();
      assert ([h] + hs)[1..] == hs;
    }

    // One turn of the search: ask the heap at k.
    method TryHeap(h: MemHeap, ghost k: nat) returns (b: Block?)
      requires Distinct(heaps) && HeapsOk(heaps, numblksperheap, sizeblk) && k < |heaps| && h == heaps[k]
      modifies h`numfree, h`phead, h`free
      ensures b == null <==> old(h.numfree) == 0
      ensures b == null ==> unchanged(h)
      ensures b != null ==> b.heap == h && b !in old(Live()) && Live() == old(Live()) + {b}
      ensures b != null ==> h.numfree == old(h.numfree) - 1
      ensures HeapsOk(heaps, numblksperheap, sizeblk)
    {
      HeadNotLive(heaps, k);
      hide LiveOf, TotalFree;
      b := h.Malloc();
      if b != null {
        assert OthersKept(heaps, k);
        HeapsKept(heaps, k, numblksperheap, sizeblk);
        LiveChanged(heaps, k, {b}, {});
      }
    }

    lemma HeadNotLive(hs: seq<MemHeap>, k: nat)
      requires HeapsOk(hs, numblksperheap, sizeblk) && k < |hs|
      ensures hs[k].phead != null ==> hs[k].phead !in LiveOf(hs)
    {
      assert hs[k].Valid();
    }

    // One block taken from the heap at k: that heap goes to the front unless it is used up.
    method Took(prior: MemHeap?, h: MemHeap, ghost k: nat, ghost ns: seq<nat>)
      requires numblksperheap > 0 && Chain(heaps, phead) && numheaps == |heaps| && HeapsOk(heaps, numblksperheap, sizeblk)
      requires k < |heaps| == |ns| && h == heaps[k] && prior == (if k == 0 then null else heaps[k - 1])
      requires numfreeblks == Sum(ns) && ns[k] == h.numfree + 1
      requires forall i :: 0 <= i < |heaps| && i != k ==> heaps[i].numfree == ns[i]
      modifies this`phead, this`numfreeblks, this`heaps, heaps`pnext
      ensures Valid() && heaps == (if k > 0 && h.numfree > 0 then ToFront(old(heaps), k) else old(heaps))
      ensures Live() == old(Live()) && numfreeblks == old(numfreeblks) - 1
    {
      hide HeapsOk, LiveOf, TotalFree, Chain, Linked, Distinct;
      ghost var hs := heaps;
      TotalChanged(hs, ns, k);
      numfreeblks := numfreeblks - 1;
      if prior != null && h.numfree > 0 {
        FrontHeaps(hs, k);
        Relink(prior, h, k);
        HeapsSame(hs, heaps, numblksperheap, sizeblk);
        LiveSame(hs, heaps);
      }
    }

    // The heap at k to the front of the list.
    method Relink(prior: MemHeap, h: MemHeap, ghost k: nat)
      requires Chain(heaps, phead) && 0 < k < |heaps| && h == heaps[k] && prior == heaps[k - 1]
      modifies this`phead, this`heaps, heaps`pnext
      ensures heaps == ToFront(old(heaps), k) && Chain(heaps, phead)
    {
      ghost var hs := heaps;
      FrontHeaps(hs, k);
      hide ToFront;
      prior.pnext := h.pnext;
      h.pnext := phead;
      phead := h;
      FrontLinked(hs, k);
      FrontFirst(hs, k);
      heaps := ToFront(hs, k);
    }

    lemma FrontFirst(hs: seq<MemHeap>, k: nat)
      requires k < |hs|
      ensures ToFront(hs, k)[0] == hs[k]
    {
    }

    twostate lemma FrontLinked(hs: seq<MemHeap>, new k: nat)
      requires 0 < k
      requires k < |hs|
      requires Distinct(hs)
      requires old(Linked(hs))
      requires hs[k].pnext == hs[0]
      requires hs[k - 1].pnext == old(hs[k].pnext)
      requires forall i :: 0 <= i < |hs| && i != k && i != k - 1 ==> hs[i].pnext == old(hs[i].pnext)
      ensures Linked(ToFront(hs, k))
    {
      var m := ToFront(hs, k);
      forall i | 0 <= i < |m| - 1 ensures m[i].pnext == m[i + 1] {
        if 0 < i < k {
          assert m[i] == hs[i - 1] && (i < k - 1 ==> m[i + 1] == hs[i]);
        }
      }
    }

    // One turn of the search: the heap at k serves, or has no free block.
    method SearchTurn(prior: MemHeap?, h: MemHeap, ghost k: nat) returns (b: Block?)
      requires Valid() && k < |heaps| && h == heaps[k] && prior == (if k == 0 then null else heaps[k - 1])
      modifies this`phead, this`numfreeblks, this`heaps, heaps`pnext, heaps`numfree, heaps`phead, heaps`free
      ensures b == null ==> old(h.numfree) == 0 && unchanged(this) && unchanged(old(heaps))
      ensures b != null ==> Valid() && b.heap == h && b !in old(Live()) && Live() == old(Live()) + {b}
      ensures b != null ==> numfreeblks == old(numfreeblks) - 1 && heaps == if k > 0 && h.numfree > 0 then ToFront(old(heaps), k) else old(heaps)
    {
      hide HeapsOk, LiveOf, TotalFree, Linked;
      ghost var hs := heaps;
      ghost var ns := Counts(hs);
      TotalIsSum(hs, ns);
      b := TryHeap(h, k);
      if b != null {
        Took(prior, h, k, ns);
      }
    }

    // Blocks are free: the first heap that has one serves. The search never falls through.
    method Search() returns (r: Block, ghost k: nat)
      requires Valid() && numfreeblks > 0
      modifies this`phead, this`numfreeblks, this`heaps, heaps`pnext, heaps`numfree, heaps`phead, heaps`free
      ensures Valid() && r !in old(Live()) && Live() == old(Live()) + {r} && numfreeblks == old(numfreeblks) - 1
      ensures k < |old(heaps)| && r.heap == old(heaps)[k] && forall j :: 0 <= j < k ==> old(heaps[j].numfree) == 0
      ensures heaps == if k > 0 && r.heap.numfree > 0 then ToFront(old(heaps), k) else old(heaps)
    {
      hide HeapsOk, LiveOf, TotalFree, Chain, Linked;
      ghost var hs := heaps;
      var prior: MemHeap? := null;
      var h := phead;
      k := 0;
      FirstHeap(hs);
      while h != null
        invariant k <= |hs| && h == (if k < |hs| then hs[k] else null) && prior == (if k == 0 then null else hs[k - 1])
        invariant unchanged(this) && unchanged(hs)
        invariant forall j :: 0 <= j < k ==> hs[j].numfree == 0
        decreases |hs| - k
      {
        var b := SearchTurn(prior, h, k);
        if b != null {
          r := b;
          return;
        }
        NextHeap(hs, k);
        prior := h;
        h := h.pnext;
        k := k + 1;
      }
      NoneFree(hs);
      assert false;
      r := *;
    }

    lemma FirstHeap(hs: seq<MemHeap>)
      requires Chain(hs, phead)
      ensures phead == if |hs| == 0 then null else hs[0]
    {
    }

    lemma NextHeap(hs: seq<MemHeap>, k: nat)
      requires k < |hs| && Chain(hs, phead)
      ensures hs[k].pnext == if k + 1 < |hs| then hs[k + 1] else null
    {
    }

    /** malloc_: the block handed out was not live, and no block is written. */
    method Malloc() returns (r: Block)
      requires Valid()
      modifies this`phead, this`numfreeblks, this`numheaps, this`heaps, heaps`pnext, heaps`numfree, heaps`phead, heaps`free
      ensures Valid() && r !in old(Live()) && Live() == old(Live()) + {r} && r.heap.sizeblk == sizeblk
      ensures forall o :: o in Repr() ==> o in old(Repr()) || fresh(o)
      ensures if old(numfreeblks) == 0 then fresh(r) && numheaps == old(numheaps) + 1 && numfreeblks == numblksperheap - 1
              else numheaps == old(numheaps) && numfreeblks == old(numfreeblks) - 1
    {
      hide HeapsOk, LiveOf, TotalFree, Chain;
      if numfreeblks == 0 {
        r := Grow();
      } else {
        ghost var k;
        ghost var hs := heaps;
        r, k := Search();
        SizeOfHeap(k, hs);
        FrontHeaps(hs, k);
        ReprKept();
      }
    }

    lemma SizeOfHeap(k: nat, hs: seq<MemHeap>)
      requires Valid() && k < |hs| && (heaps == hs || heaps == ToFront(hs, k))
      ensures hs[k].sizeblk == sizeblk
    {
      assert heaps[0] == hs[0] || heaps[0] == hs[k];
    }

    // One turn of gc_: the heap behind p goes or stays.
    method GcStep(p: MemHeap, next: MemHeap, ghost hs: seq<MemHeap>, ghost kept: seq<MemHeap>, ghost j: nat)
      returns (p': MemHeap, ghost kept': seq<MemHeap>)
      requires 1 <= j < |hs| && |kept| > 0 && GcLinks(hs, kept, j) && GcCounts(hs, kept, j, numheaps, numfreeblks)
      requires p == kept[|kept| - 1] && next == hs[j] && HeapsOk(hs, numblksperheap, sizeblk)
      modifies this`numheaps, this`numfreeblks, hs`pnext
      ensures |kept'| > 0 && GcLinks(hs, kept', j + 1) && GcCounts(hs, kept', j + 1, numheaps, numfreeblks)
      ensures p' == kept'[|kept'| - 1] && p'.pnext == NextOf(hs, j + 1)
    {
      hide HeapsOk, GcLinks, GcCounts;
      GcTurn(hs, kept, j, numheaps, numfreeblks);
      if next.numfree == next.numblk {
        Unlink(p, next, hs, kept, j);
        numheaps := numheaps - 1;
        numfreeblks := numfreeblks - numblksperheap;
        p', kept' := p, kept;
      } else {
        NotDropped(hs, kept, j);
        p', kept' := next, kept + [next];
      }
    }

    // gc_: heaps behind the first that have no live block are dropped.
    method Gc()
      requires Valid() && |heaps| > 0
      modifies this`numheaps, this`numfreeblks, this`heaps, heaps`pnext
      ensures Valid() && heaps == [old(heaps)[0]] + Kept(old(heaps)[1..]) && Live() == old(Live())
    {
      hide HeapsOk, LiveOf, TotalFree, Kept, GcLinks, GcCounts, Chain;
      ghost var hs := heaps;
      ghost var kept: seq<MemHeap>, j: nat := [hs[0]], 1;
      GcStart(hs);
      var p: MemHeap := phead;
      var next := p.pnext;
      while next != null
        invariant 1 <= j <= |hs| && |kept| > 0 && GcLinks(hs, kept, j) && GcCounts(hs, kept, j, numheaps, numfreeblks)
        invariant p == kept[|kept| - 1] && next == NextOf(hs, j)
        invariant heaps == hs
        decreases |hs| - j
      {
        p, kept := GcStep(p, next, hs, kept, j);
        j := j + 1;
        next := p.pnext;
      }
      GcEnd(hs, kept, numheaps, numfreeblks);
      heaps := kept;
    }

    ghost function NextOf(hs: seq<MemHeap>, j: nat): MemHeap? { if j < |hs| then hs[j] else null }

    // The list is kept and then hs[j..].
    ghost predicate GcLinks(hs: seq<MemHeap>, kept: seq<MemHeap>, j: nat)
      reads hs`pnext, kept`pnext
    {
      && 1 <= j <= |hs| && |kept| > 0 && Distinct(hs) && Distinct(kept) && (forall i :: 0 <= i < |kept| ==> kept[i] in hs[..j])
      && (forall i :: 0 <= i < |kept| - 1 ==> kept[i].pnext == kept[i + 1]) && kept[|kept| - 1].pnext == NextOf(hs, j)
      && (forall i :: j <= i < |hs| ==> hs[i].pnext == NextOf(hs, i + 1))
    }

    // kept is what the first j heaps leave; nh heaps with nf free blocks are in the list.
    ghost predicate GcCounts(hs: seq<MemHeap>, kept: seq<MemHeap>, j: nat, nh: nat, nf: nat)
      requires 1 <= j <= |hs|
      reads hs`numfree, kept`numfree
    {
      kept == [hs[0]] + Kept(hs[1..j]) && nh == |kept| + |hs| - j && nf == TotalFree(kept) + TotalFree(hs[j..])
    }

    lemma GcStart(hs: seq<MemHeap>)
      requires |hs| > 0 && Chain(hs, phead)
      ensures phead == hs[0] && GcLinks(hs, [hs[0]], 1) && hs[0].pnext == NextOf(hs, 1) && GcCounts(hs, [hs[0]], 1, |hs|, TotalFree(hs))
    {
      assert hs[..1] == [hs[0]] && [hs[0]][1..] == [];
    }

    lemma GcTurn(hs: seq<MemHeap>, kept: seq<MemHeap>, j: nat, nh: nat, nf: nat)
      requires 1 <= j < |hs| && HeapsOk(hs, numblksperheap, sizeblk) && GcCounts(hs, kept, j, nh, nf)
      ensures if hs[j].numfree == hs[j].numblk
              then nh > 0 && nf >= numblksperheap && GcCounts(hs, kept, j + 1, nh - 1, nf - numblksperheap)
              else GcCounts(hs, kept + [hs[j]], j + 1, nh, nf)
    {
      hide TotalFree, Kept;
      GcSplit(hs, kept, j);
    }

    lemma GcSplit(hs: seq<MemHeap>, kept: seq<MemHeap>, j: nat)
      requires 1 <= j < |hs|
      ensures TotalFree(hs[j..]) == hs[j].numfree + TotalFree(hs[j + 1..]) && TotalFree(kept + [hs[j]]) == TotalFree(kept) + hs[j].numfree
      ensures Kept(hs[1..j + 1]) == Kept(hs[1..j]) + if hs[j].numfree == hs[j].numblk then [] else [hs[j]]
    {
      assert hs[j..][1..] == hs[j + 1..] && [hs[j]][1..] == [] && hs[1..j + 1] == hs[1..j] + [hs[j]];
      TotalConcat(kept, [hs[j]]);
      KeptConcat(hs[1..j], [hs[j]]);
    }

    method Unlink(p: MemHeap, next: MemHeap, ghost hs: seq<MemHeap>, ghost kept: seq<MemHeap>, ghost j: nat)
      requires GcLinks(hs, kept, j) && j < |hs| && p == kept[|kept| - 1] && next == hs[j]
      modifies hs`pnext
      ensures GcLinks(hs, kept, j + 1) && p.pnext == NextOf(hs, j + 1)
    {
      assert p in hs[..j];
      p.pnext := next.pnext;
    }

    lemma NotDropped(hs: seq<MemHeap>, kept: seq<MemHeap>, j: nat)
      requires GcLinks(hs, kept, j) && j < |hs|
      ensures GcLinks(hs, kept + [hs[j]], j + 1) && hs[j].pnext == NextOf(hs, j + 1)
    {
    }

    lemma GcEnd(hs: seq<MemHeap>, kept: seq<MemHeap>, nh: nat, nf: nat)
      requires |hs| > 0 && |kept| > 0 && GcLinks(hs, kept, |hs|) && GcCounts(hs, kept, |hs|, nh, nf) && HeapsOk(hs, numblksperheap, sizeblk)
      ensures kept == [hs[0]] + Kept(hs[1..]) && Chain(kept, hs[0]) && nh == |kept| && nf == TotalFree(kept)
      ensures HeapsOk(kept, numblksperheap, sizeblk) && LiveOf(kept) == LiveOf(hs)
    {
      hide HeapsOk, LiveOf, Kept, GcLinks, Chain;
      assert hs[1..|hs|] == hs[1..] && hs[|hs|..] == [];
      KeptChain(hs, kept);
      HeapsSame(hs, kept, numblksperheap, sizeblk);
      LiveKept(hs);
    }

    lemma KeptChain(hs: seq<MemHeap>, kept: seq<MemHeap>)
      requires GcLinks(hs, kept, |hs|) && |kept| > 0 && kept[0] == hs[0]
      ensures Chain(kept, hs[0]) && forall h :: h in kept ==> h in hs
    {
    }

    // No live block is lost with the dropped heaps.
    lemma LiveKept(hs: seq<MemHeap>)
      requires |hs| > 0 && HeapsOk(hs, numblksperheap, sizeblk)
      ensures LiveOf([hs[0]] + Kept(hs[1..])) == LiveOf(hs)
    {
      var kept := [hs[0]] + Kept(hs[1..]);
      forall h | h in hs && h.Live() != {} ensures h in kept {
        h.LiveCount();
      }
      forall h | h in kept ensures h in hs {
      }
    }

    // A live block back into its heap, the one at k.
    method ToHeap(p: Block, ghost hs: seq<MemHeap>, ghost k: nat)
      requires Distinct(hs) && HeapsOk(hs, numblksperheap, sizeblk) && k < |hs| && p.heap == hs[k] && p in p.heap.Live()
      modifies p.heap`numfree, p.heap`phead, p.heap`free, p
      ensures HeapsOk(hs, numblksperheap, sizeblk) && LiveOf(hs) == old(LiveOf(hs)) - {p} && p.heap.numfree == old(p.heap.numfree) + 1
    {
      assert forall i :: 0 <= i < |hs| ==> hs[i].Valid();
      p.heap.LiveCount();
      hide LiveOf;
      p.heap.Free(p);
      assert OthersKept(hs, k);
      HeapsKept(hs, k, numblksperheap, sizeblk);
      LiveChanged(hs, k, {}, {p});
    }

    method GiveBack(p: Block, ghost k: nat)
      requires Valid() && k < |heaps| && p.heap == heaps[k] && p in p.heap.Live()
      modifies this`numfreeblks, p.heap`numfree, p.heap`phead, p.heap`free, p
      ensures Valid() && Live() == old(Live()) - {p} && numfreeblks == old(numfreeblks) + 1
    {
      hide LiveOf, TotalFree, Chain, HeapsOk;
      ghost var ns := Counts(heaps);
      TotalIsSum(heaps, ns);
      DistinctOf(heaps, phead);
      ToHeap(p, heaps, k);
      numfreeblks := numfreeblks + 1;
      TotalChanged(heaps, ns, k);
    }

    lemma DistinctOf(hs: seq<MemHeap>, first: MemHeap?)
      requires Chain(hs, first)
      ensures Distinct(hs)
    {
    }

    lemma LiveHeap(p: Block) returns (k: nat)
      requires HeapsOk(heaps, numblksperheap, sizeblk) && p in Live()
      ensures k < |heaps| && p.heap == heaps[k] && p in p.heap.Live()
    {
      var h :| h in heaps && p in h.Live();
      k :| 0 <= k < |heaps| && heaps[k] == h;
      assert heaps[k].Valid();
    }

    /** free_: exactly p is no longer live; when more than GC_MINHEAPS heaps are there and the heap of p has no
        live block left, is not the first, and the free blocks are no multiple of a heap, gc_ runs. */
    method Free(p: Block)
      requires Valid() && p in Live()
      modifies this`numheaps, this`numfreeblks, this`heaps, heaps`pnext, heaps`numfree, heaps`phead, heaps`free, p
      ensures Valid() && Live() == old(Live()) - {p} && Repr() <= old(Repr())
      ensures heaps == if old(numheaps) > GC_MINHEAPS && p.heap.numfree == p.heap.numblk && p.heap != phead
                          && (old(numfreeblks) + 1) % numblksperheap != 0
                       then [old(heaps)[0]] + Kept(old(heaps)[1..]) else old(heaps)
    {
      hide HeapsOk, LiveOf, TotalFree, Chain, Kept;
      ghost var k := LiveHeap(p);
      GiveBack(p, k);
      if numheaps > GC_MINHEAPS && p.heap.numfree == p.heap.numblk && p.heap != phead && numfreeblks % numblksperheap != 0 {
        Gc();
      }
      assert forall h :: h in heaps ==> h in old(heaps);
      ReprKept();
    }

    /** Free and live blocks together are all blocks. */
    lemma Conservation()
      requires Valid()
      ensures numfreeblks + |Live()| == numheaps * numblksperheap
    {
      FreeAndLive(heaps, numblksperheap, sizeblk);
    }
  }

  lemma {:induction false} FreeAndLive(hs: seq<MemHeap>, n: nat, size: nat)
    requires Distinct(hs) && HeapsOk(hs, n, size)
    ensures TotalFree(hs) + |LiveOf(hs)| == |hs| * n
  {
    hide LiveOf, HeapsOk;
    if hs == [] {
      LiveNone();
    } else {
      var t := hs[1..];
      HeapsApart(hs, n, size);
      FreeAndLive(t, n, size);
      MulSucc(|t|, n);
    }
  }

  lemma MulSucc(a: nat, n: nat)
    ensures (a + 1) * n == a * n + n
  {
  }

  lemma HeapsApart(hs: seq<MemHeap>, n: nat, size: nat)
    requires |hs| > 0 && Distinct(hs) && HeapsOk(hs, n, size)
    ensures HeapsOk(hs[1..], n, size) && |LiveOf(hs)| == n - hs[0].numfree + |LiveOf(hs[1..])|
  {
    var h, t := hs[0], hs[1..];
    assert h.Valid() && forall i :: 0 <= i < |t| ==> t[i] == hs[i + 1];
    assert HeapsOk(t, n, size);
    hide LiveOf, HeapsOk;
    h.LiveCount();
    assert hs == [h] + t;
    LiveConcat([h], t);
    LiveOne(h);
    OtherHeaps(h, t, n, size);
  }

  lemma LiveNone()
    ensures LiveOf([]) == {}
  {
  }

  lemma OtherHeaps(h: MemHeap, t: seq<MemHeap>, n: nat, size: nat)
    requires h.Valid() && h !in t && HeapsOk(t, n, size)
    ensures h.Live() !! LiveOf(t)
  {
    forall b | b in LiveOf(t) ensures b.heap != h {
      var g :| g in t && b in g.Live();
      var i :| 0 <= i < |t| && t[i] == g;
      assert t[i].Valid();
    }
  }
}
