/** io_buffer of ec_memory.h: a byte queue in blocks from a block allocator. */
module IoBuffers {
  import opened Bytes
  import opened Heaps
  import opened Alloctor

  const HEADER := 16      // sizeof(blk_)

  // blk_, at the start of the allocator's block mem, and the bytes behind it.
  class Blk {
    const mem: Block
    const data: array<byte>
    var pos: nat
    var len: nat
    var pnext: Blk?

    constructor (m: Block, size: nat)
      ensures mem == m && data.Length == size && fresh(data) && pos == 0 && len == 0 && pnext == null
    {
      mem := m;
      data := new byte[size];
      pos, len, pnext := 0, 0, null;
    }
  }

  // ---- sequences of blocks ----

  ghost predicate Ends(bs: seq<Blk>, first: Blk?, last: Blk?) {
    && (forall i, j :: 0 <= i < j < |bs| ==> bs[i] != bs[j])
    && (if |bs| == 0 then first == null && last == null else first == bs[0] && last == bs[|bs| - 1])
  }

  ghost predicate Links(bs: seq<Blk>)
    reads bs`pnext
  {
    && (forall i :: 0 <= i < |bs| - 1 ==> bs[i].pnext == bs[i + 1])
    && (|bs| > 0 ==> bs[|bs| - 1].pnext == null)
  }

  ghost predicate Chained(bs: seq<Blk>, first: Blk?, last: Blk?)
    reads bs`pnext
  {
    Ends(bs, first, last) && Links(bs)
  }

  // The tail has been linked to a new block.
  twostate lemma ChainedLast(bs: seq<Blk>, new b: Blk, new first: Blk?, new last: Blk?)
    requires Ends(bs, first, last)
    requires old(Links(bs))
    requires b !in bs && b.pnext == null
    requires last != null ==> last.pnext == b
    requires forall x :: x in bs && x != last ==> x.pnext == old(x.pnext)
    ensures Chained(bs + [b], if first == null then b else first, b)
  {
    var s := bs + [b];
    assert forall i :: 0 <= i < |bs| ==> s[i] == bs[i] && bs[i] in bs;
  }

  // Every block is part-filled at least by one unread byte, only the first is part-read, only the last is
  // not full; a new last block may still be blank.
  ghost predicate Shaped(bs: seq<Blk>, size: nat, blank: bool)
    reads bs`pos, bs`len
  {
    && size > 0
    && (forall i :: 0 <= i < |bs| ==> bs[i].data.Length == size)
    && (forall i :: 0 <= i < |bs| ==> bs[i].pos <= bs[i].len <= size)
    && (forall i :: 0 <= i < |bs| - 1 ==> bs[i].pos < bs[i].len == size)
    && (forall i :: 1 <= i < |bs| ==> bs[i].pos == 0)
    && (|bs| > 0 && bs[|bs| - 1].pos == bs[|bs| - 1].len ==> blank && bs[|bs| - 1].len == 0)
    && (forall i, j :: 0 <= i < j < |bs| ==> bs[i].data != bs[j].data)
  }

  ghost function Chunk(b: Blk): seq<byte>
    reads b`pos, b`len, b.data
  {
    if b.pos <= b.len <= b.data.Length then b.data[b.pos..b.len] else []
  }

  // The unread bytes.
  ghost function Unread(bs: seq<Blk>): seq<byte>
    reads bs`pos, bs`len, set b | b in bs :: b.data
  {
    if bs == [] then [] else Chunk(bs[0]) + Unread(bs[1..])
  }

  ghost function Mems(bs: seq<Blk>): set<Block> { set b | b in bs :: b.mem }

  // The blocks lie in different live blocks of the allocator.
  ghost predicate Owned(bs: seq<Blk>, live: set<Block>) {
    && (forall i :: 0 <= i < |bs| ==> bs[i].mem in live)
    && (forall i, j :: 0 <= i < j < |bs| ==> bs[i].mem != bs[j].mem)
  }

  lemma {:induction false} UnreadConcat(a: seq<Blk>, b: seq<Blk>)
    ensures Unread(a + b) == Unread(a) + Unread(b)
  {
    hide Chunk;
    if a == [] {
      assert a + b == b;
    } else {
      assert (a + b)[1..] == a[1..] + b;
      UnreadConcat(a[1..], b);
      assert (a + b)[0] == a[0];
    }
  }

  // The bytes of the last block are the last unread ones.
  lemma UnreadLast(bs: seq<Blk>)
    requires |bs| > 0
    ensures Unread(bs) == Unread(bs[..|bs| - 1]) + Chunk(bs[|bs| - 1])
  {
    hide Chunk;
    var n := |bs| - 1;
    UnreadOne(bs[n]);
    hide Unread;
    assert bs == bs[..n] + [bs[n]];
    UnreadConcat(bs[..n], [bs[n]]);
  }

  lemma UnreadOne(b: Blk)
    ensures Unread([b]) == Chunk(b)
  {
    hide Chunk;
    assert [b][1..] == [];
    assert Unread([b]) == Chunk(b) + Unread([]);
  }

  class IoBuffer {
    const pallocator: BlkAlloctor
    const sizemax: nat
    var phead: Blk?
    var ptail: Blk?
    var size: nat
    ghost var blks: seq<Blk>

    function BlkSize(): int { pallocator.sizeblk - HEADER }

    // Nodes and their bytes.
    ghost function Nodes(): set<object>
      reads this`blks
    {
      (set b: object | b in blks) + set b: Blk | b in blks :: b.data as object
    }

    ghost function Content(): seq<byte>
      reads this`blks, blks, set b | b in blks :: b.data
    {
      Unread(blks)
    }

    ghost predicate Blocks(blank: bool)
      reads this`phead, this`ptail, this`blks, blks`pos, blks`len, blks`pnext
    {
      BlkSize() > 0 && Chained(blks, phead, ptail) && Shaped(blks, BlkSize(), blank)
    }

    // The queue by itself, whatever the allocator does.
    ghost predicate Queue(blank: bool)
      reads this, blks, Nodes()
    {
      && Blocks(blank)
      && size == |Content()| && size <= sizemax + if |blks| == 0 then 0 else blks[|blks| - 1].len
    }

    ghost predicate Valid()
      reads this, blks, Nodes(), pallocator, pallocator.Repr()
    {
      Queue(false) && pallocator.Valid() && Owned(blks, pallocator.Live())
    }

    constructor (max: nat, alloc: BlkAlloctor)
      requires alloc.Valid() && alloc.sizeblk > HEADER
      ensures Valid() && Content() == [] && sizemax == max && pallocator == alloc && blks == []
    {
      pallocator, sizemax, phead, ptail, size, blks := alloc, max, null, null, 0, [];
    }

    // The live blocks of the allocator's other clients.
    ghost function Others(): set<Block>
      reads this`blks, pallocator`heaps, pallocator.heaps
    {
      pallocator.Live() - Mems(blks)
    }

    // blkappend on the last block.
    method BlkAppend(p: seq<byte>, from: nat) returns (zadd: nat)
      requires Queue(true) && ptail != null && ptail.len < BlkSize() && from < |p|
      modifies ptail`len, ptail.data, this`size
      ensures 0 < zadd <= |p| - from && Queue(false) && Content() == old(Content()) + p[from..from + zadd]
      ensures from + zadd < |p| ==> ptail.len == BlkSize()
    {
      hide Unread, Chunk, InitShaped, Chained, Queue, Content;
      LastOpen();
      ghost var init := blks[..|blks| - 1];
      ghost var before, chunk := Unread(init), Chunk(ptail);
      zadd := Fill(ptail, p, from);
      size := size + zadd;
      assert Unread(init) == before;
      assert before + (chunk + p[from..from + zadd]) == (before + chunk) + p[from..from + zadd];
      LastFilled();
    }

    // The queue as what is before its last block and that block.
    lemma LastOpen()
      requires Queue(true) && ptail != null
      ensures |blks| > 0 && ptail == blks[|blks| - 1] && BlkSize() > 0 && Chained(blks, phead, ptail)
      ensures var init := blks[..|blks| - 1];
              && InitShaped(init, ptail, BlkSize()) && ptail.data.Length == BlkSize() && ptail.pos <= ptail.len && (|blks| > 1 ==> ptail.pos == 0)
              && ptail !in init && (forall b :: b in init ==> b.data != ptail.data) && Content() == Unread(init) + Chunk(ptail)
      ensures size == |Content()| <= sizemax + ptail.len
    {
      hide Unread, Chunk, InitShaped, Shaped, Links;
      ShapedParts(blks, BlkSize(), true);
      UnreadLast(blks);
    }

    lemma LastFilled()
      requires |blks| > 0 && ptail == blks[|blks| - 1] && BlkSize() > 0 && Chained(blks, phead, ptail)
      requires InitShaped(blks[..|blks| - 1], ptail, BlkSize()) && ptail.data.Length == BlkSize() && (|blks| > 1 ==> ptail.pos == 0)
      requires ptail.pos < ptail.len <= BlkSize() && size == |Unread(blks[..|blks| - 1]) + Chunk(ptail)| <= sizemax + ptail.len
      ensures Queue(false) && Content() == Unread(blks[..|blks| - 1]) + Chunk(ptail)
    {
      hide Unread, Chunk, InitShaped, Shaped, Chained;
      ShapedWhole(blks, BlkSize());
      UnreadLast(blks);
    }

    // All blocks but the last; only their own fields matter.
    ghost predicate InitShaped(init: seq<Blk>, last: Blk, n: nat)
      reads init`pos, init`len
    {
      && (forall i :: 0 <= i < |init| ==> init[i].data.Length == n && init[i].pos < init[i].len == n && init[i].data != last.data && init[i] != last)
      && (forall i :: 1 <= i < |init| ==> init[i].pos == 0)
      && (forall i, j :: 0 <= i < j < |init| ==> init[i].data != init[j].data)
    }

    lemma ShapedParts(bs: seq<Blk>, n: nat, blank: bool)
      requires |bs| > 0 && Shaped(bs, n, blank) && Ends(bs, phead, ptail)
      ensures var last := bs[|bs| - 1];
              && InitShaped(bs[..|bs| - 1], last, n) && last.data.Length == n && last.pos <= last.len <= n
              && (|bs| > 1 ==> last.pos == 0) && last !in bs[..|bs| - 1]
              && forall b :: b in bs[..|bs| - 1] ==> b.data != last.data
    {
    }

    lemma ShapedWhole(bs: seq<Blk>, n: nat)
      requires |bs| > 0
      requires var last := bs[|bs| - 1];
               && InitShaped(bs[..|bs| - 1], last, n) && last.data.Length == n && last.pos < last.len <= n && (|bs| > 1 ==> last.pos == 0)
      ensures Shaped(bs, n, false)
    {
      var init, last := bs[..|bs| - 1], bs[|bs| - 1];
      assert forall i :: 0 <= i < |init| ==> bs[i] == init[i];
    }

    method Fill(b: Blk, p: seq<byte>, from: nat) returns (zadd: nat)
      requires b.pos <= b.len < BlkSize() == b.data.Length && from < |p|
      modifies b`len, b.data
      ensures 0 < zadd <= |p| - from && b.len == old(b.len) + zadd <= BlkSize() && Chunk(b) == old(Chunk(b)) + p[from..from + zadd]
      ensures from + zadd < |p| ==> b.len == BlkSize()
    {
      hide Chunk;
      zadd := BlkSize() - b.len;
      if |p| - from < zadd {
        zadd := |p| - from;
      }
      OwnChunk(b);
      ghost var before := b.data[..];
      forall i | b.len <= i < b.len + zadd {
        b.data[i] := p[from + i - b.len];
      }
      FilledUp(before, b.data[..], b.pos, b.len, zadd, p, from);
      b.len := b.len + zadd;
      OwnChunk(b);
    }

    lemma FilledUp(before: seq<byte>, d: seq<byte>, pos: nat, len: nat, n: nat, p: seq<byte>, from: nat)
      requires pos <= len && len + n <= |d| == |before| && from + n <= |p|
      requires forall i :: 0 <= i < len ==> d[i] == before[i]
      requires forall i :: len <= i < len + n ==> d[i] == p[from + i - len]
      ensures d[pos..len + n] == before[pos..len] + p[from..from + n]
    {
      var x, y := d[pos..len + n], before[pos..len] + p[from..from + n];
      forall i | 0 <= i < |x| ensures x[i] == y[i] {
        assert x[i] == d[pos + i];
      }
    }

    // A blank block at the end of the list, in memory m.
    method LinkLast(m: Block)
      requires Queue(false) && (ptail == null || ptail.len == BlkSize()) && size <= sizemax
      modifies this`phead, this`ptail, this`blks, blks`pnext
      ensures Queue(true) && fresh(ptail) && fresh(ptail.data) && blks == old(blks) + [ptail]
      ensures ptail.mem == m && ptail.len == 0 && Content() == old(Content())
    {
      hide Unread, Chained, Shaped, Chunk, Ends, Links;
      ghost var bs, content := blks, Unread(blks);
      var b := new Blk(m, BlkSize());
      HeadTail(bs, phead, ptail);
      ShapedLast(bs, b, BlkSize());
      ghost var last := ptail;
      if phead == null {
        ptail := b;
        phead := b;
      } else {
        ptail.pnext := b;
        ptail := b;
      }
      ChainedLast(bs, b, old(phead), last);
      blks := bs + [b];
    }

    lemma HeadTail(bs: seq<Blk>, first: Blk?, last: Blk?)
      requires Chained(bs, first, last)
      ensures Ends(bs, first, last) && Links(bs)
      ensures (first == null <==> |bs| == 0) && (last == null <==> |bs| == 0) && (last != null ==> last in bs && last == bs[|bs| - 1])
    {
    }

    lemma ShapedLast(bs: seq<Blk>, b: Blk, n: nat)
      requires Shaped(bs, n, false) && (|bs| == 0 || bs[|bs| - 1].len == n) && b !in bs && b.data.Length == n && b.pos == b.len == 0
      requires forall x :: x in bs ==> x.data != b.data
      ensures Shaped(bs + [b], n, true) && Unread(bs + [b]) == Unread(bs)
    {
      ShapedOneMore(bs, b, n);
      var s := bs + [b];
      hide Shaped, Unread;
      assert s[..|s| - 1] == bs;
      UnreadLast(s);
      assert Unread(bs) + [] == Unread(bs);
    }

    lemma ShapedOneMore(bs: seq<Blk>, b: Blk, n: nat)
      requires Shaped(bs, n, false) && (|bs| == 0 || bs[|bs| - 1].len == n) && b !in bs && b.data.Length == n && b.pos == b.len == 0
      requires forall x :: x in bs ==> x.data != b.data
      ensures Shaped(bs + [b], n, true)
    {
      var s := bs + [b];
      assert forall i :: 0 <= i < |bs| ==> s[i] == bs[i] && bs[i] in bs;
    }

    lemma OwnedLast(bs: seq<Blk>, b: Blk, live: set<Block>)
      requires Owned(bs, live) && b.mem !in live
      ensures Owned(bs + [b], live + {b.mem}) && live + {b.mem} - Mems(bs + [b]) == live - Mems(bs)
    {
      var s := bs + [b];
      assert s[|bs|] == b;
      assert forall x :: x in bs ==> x in s;
    }

    // The nodes are none of the allocator's objects.
    lemma NodesApart()
      ensures this !in pallocator.Repr() && Nodes() !! pallocator.Repr() && (forall b :: b in blks ==> b !in pallocator.Repr())
      ensures pallocator in pallocator.Repr() && forall h :: h in pallocator.heaps ==> h in pallocator.Repr()
    {
    }

    // A block from the allocator at the end of the list.
    method AddBlock()
      requires Valid() && (ptail == null || ptail.len == BlkSize()) && size <= sizemax
      modifies this`phead, this`ptail, this`blks, blks`pnext, pallocator.Repr()
      ensures Queue(true) && pallocator.Valid() && Owned(blks, pallocator.Live()) && Content() == old(Content())
      ensures ptail != null && ptail.len == 0 && Others() == old(Others())
      ensures (forall o :: o in Nodes() ==> o in old(Nodes()) || fresh(o))
              && (forall o :: o in pallocator.Repr() ==> o in old(pallocator.Repr()) || fresh(o))
    {
      hide Queue, Owned, Unread, BlkAlloctor.Repr, BlkAlloctor.Valid, Mems;
      ghost var bs, live := blks, pallocator.Live();
      NodesApart();
      var m := pallocator.Malloc();
      LinkLast(m);
      OwnedLast(bs, ptail, live);
    }

    lemma QueueFacts(blank: bool)
      requires Queue(blank)
      ensures Queue(true) && BlkSize() > 0 && (ptail != null ==> ptail in blks && ptail.len <= BlkSize())
      ensures (phead == null <==> |blks| == 0) && (ptail == null <==> |blks| == 0) && size == |Content()|
      ensures |blks| > 0 ==> phead == blks[0]
    {
    }

    // One turn of append: a block when the last one is missing or full, unless the queue is over its limit.
    method AppendTurn(p: seq<byte>, from: nat) returns (ok: bool, zt: nat)
      requires Valid() && from < |p|
      modifies this`phead, this`ptail, this`size, this`blks, blks, Nodes(), pallocator.Repr()
      ensures Valid() && (forall o :: o in Nodes() ==> o in old(Nodes()) || fresh(o))
              && (forall o :: o in pallocator.Repr() ==> o in old(pallocator.Repr()) || fresh(o)) && Others() == old(Others())
      ensures ok ==> 0 < zt <= |p| - from && Content() == old(Content()) + p[from..from + zt]
      ensures !ok ==> size > sizemax && Content() == old(Content())
    {
      hide Owned, Unread, BlkAlloctor.Repr, BlkAlloctor.Valid, Mems, Shaped, Chunk, Links, Queue;
      QueueFacts(false);
      if ptail == null || BlkSize() == ptail.len {
        if size > sizemax {
          return false, 0;
        }
        AddBlock();
        QueueFacts(true);
      }
      NodesApart();
      zt := BlkAppend(p, from);
      ok := true;
    }

    /** append: the data is taken in order; what does not fit stays out, which happens only over the limit. */
    method Append(p: seq<byte>) returns (ok: bool, n: nat)
      requires Valid()
      modifies this`phead, this`ptail, this`size, this`blks, blks, Nodes(), pallocator.Repr()
      ensures Valid() && (forall o :: o in Nodes() ==> o in old(Nodes()) || fresh(o))
              && (forall o :: o in pallocator.Repr() ==> o in old(pallocator.Repr()) || fresh(o)) && Others() == old(Others())
      ensures n <= |p| && Content() == old(Content()) + p[..n] && ok == (n == |p|) && (!ok ==> size > sizemax)
    {
      hide Valid, Content, Others, Nodes, BlkAlloctor.Repr;
      n := 0;
      assert Content() + p[..0] == Content();
      while n < |p|
        invariant n <= |p| && Valid() && Content() == old(Content()) + p[..n] && Others() == old(Others())
        invariant (forall o :: o in Nodes() ==> o in old(Nodes()) || fresh(o))
              && (forall o :: o in pallocator.Repr() ==> o in old(pallocator.Repr()) || fresh(o))
      {
        NodesIn();
        var turn, zt := AppendTurn(p, n);
        if !turn {
          return false, n;
        }
        assert p[..n] + p[n..n + zt] == p[..n + zt];
        n := n + zt;
      }
      ok := true;
    }

    lemma NothingBuffered()
      requires Valid() && phead == null
      ensures Content() == []
    {
    }

    /** The queue never holds more than its limit and one block; only its first block is part-read, only its
        last one not full, and none is empty. */
    lemma Bounded()
      requires Valid()
      ensures size == |Content()| <= sizemax + BlkSize()
      ensures forall i :: 0 <= i < |blks| ==> blks[i].pos < blks[i].len <= BlkSize() == blks[i].data.Length
      ensures (forall i :: 1 <= i < |blks| ==> blks[i].pos == 0) && forall i :: 0 <= i < |blks| - 1 ==> blks[i].len == BlkSize()
    {
    }

    // empty() holds only without a head block.
    lemma EmptyMeans()
      requires Valid()
      ensures phead != null ==> phead.len > 0
    {
    }

    lemma NodesIn()
      ensures forall b :: b in blks ==> b in Nodes()
    {
    }

    lemma OwnedRest(bs: seq<Blk>, live: set<Block>)
      requires |bs| > 0 && Owned(bs, live)
      ensures Owned(bs[1..], live - {bs[0].mem}) && live - {bs[0].mem} - Mems(bs[1..]) == live - Mems(bs) && bs[0].mem in live
    {
      var t := bs[1..];
      assert bs == [bs[0]] + t;
      forall m | m in Mems(bs) ensures m == bs[0].mem || m in Mems(t) {
        var b :| b in bs && b.mem == m;
        var i :| 0 <= i < |bs| && bs[i] == b;
        assert i > 0 ==> t[i - 1] == b;
      }
    }

    lemma RestBlocks(bs: seq<Blk>, first: Blk?, last: Blk?)
      requires |bs| > 0 && BlkSize() > 0 && Chained(bs, first, last) && Shaped(bs, BlkSize(), false)
      ensures Chained(bs[1..], first.pnext, if first.pnext == null then null else last) && Shaped(bs[1..], BlkSize(), false)
      ensures Unread(bs) == Chunk(first) + Unread(bs[1..]) && |Chunk(first)| == first.len - first.pos > 0
    {
    }

    lemma EachApart()
      ensures this !in pallocator.Repr() && forall b :: b in blks ==> b !in pallocator.Repr() && b.data !in pallocator.Repr()
      ensures pallocator in pallocator.Repr() && forall h :: h in pallocator.heaps ==> h in pallocator.Repr()
    {
    }

    // A block of the queue back to the allocator; the queue itself is untouched.
    method ReturnBlock(m: Block)
      requires Blocks(false) && pallocator.Valid() && m in pallocator.Live()
      modifies pallocator.Repr()
      ensures pallocator.Valid() && pallocator.Live() == old(pallocator.Live()) - {m} && pallocator.Repr() <= old(pallocator.Repr())
      ensures Blocks(false) && blks == old(blks) && phead == old(phead) && ptail == old(ptail) && size == old(size) && Content() == old(Content())
      ensures forall b :: b in blks ==> unchanged(b) && unchanged(b.data)
    {
      hide Unread, Content, Nodes, BlkAlloctor.Repr, BlkAlloctor.Valid, Blocks;
      EachApart();
      pallocator.LiveInRepr(m);
      pallocator.Free(m);
    }

    // The head block goes back to the allocator.
    method FreeHead()
      requires Blocks(false) && phead != null && pallocator.Valid() && Owned(blks, pallocator.Live())
      modifies this`phead, this`ptail, this`blks, pallocator.Repr()
      ensures Blocks(false) && pallocator.Valid() && Owned(blks, pallocator.Live()) && Others() == old(Others())
      ensures |old(blks)| > 0 && blks == old(blks)[1..] && phead == old(phead.pnext)
      ensures old(phead.len - phead.pos) == |old(Chunk(phead))| > 0 && old(Content()) == old(Chunk(phead)) + Content()
      ensures pallocator.Repr() <= old(pallocator.Repr())
      ensures size == old(size) && forall b :: b in blks ==> unchanged(b) && unchanged(b.data)
    {
      hide *;
      ghost var bs, live := blks, pallocator.Live();
      HeadOf();
      OthersAre();
      OwnedRest(bs, live);
      ReturnBlock(phead.mem);
      DropHead();
      OthersAre();
      assert forall b :: b in blks ==> b in bs;
    }

    lemma OthersAre()
      ensures Others() == pallocator.Live() - Mems(blks)
    {
    }

    lemma HeadOf()
      requires Blocks(false) && phead != null
      ensures |blks| > 0 && phead == blks[0] && phead in blks
    {
    }

    method DropHead()
      requires Blocks(false) && phead != null
      modifies this`phead, this`ptail, this`blks
      ensures Blocks(false) && |old(blks)| > 0 && blks == old(blks)[1..] && phead == old(phead.pnext)
      ensures old(phead.len - phead.pos) == |old(Chunk(phead))| > 0 && old(Content()) == old(Chunk(phead)) + Content()
    {
      hide Unread, Shaped, Chunk, Links;
      ghost var bs := blks;
      RestBlocks(bs, phead, ptail);
      phead := phead.pnext;
      if phead == null {
        ptail := null;
      }
      blks := bs[1..];
    }

    // The next bytes to send: those of the head block. No head block is ever read to its end, so the loop
    // of get that skips such blocks has nothing to do.
    method Get() returns (d: seq<byte>)
      requires Valid()
      ensures d <= Content() && (d == [] <==> Content() == [])
    {
      if phead == null {
        return [];
      }
      HeadChunk();
      d := phead.data[phead.pos..phead.len];
    }

    lemma HeadChunk()
      requires Blocks(false) && phead != null
      ensures phead in blks && phead.pos < phead.len <= phead.data.Length && Chunk(phead) <= Content()
    {
    }

    // Part of the head block is read.
    method Advance(n: nat)
      requires Blocks(false) && phead != null && n < phead.len - phead.pos
      modifies phead`pos
      ensures Blocks(false) && n <= |old(Content())| && Content() == old(Content())[n..]
    {
      hide Shaped, ShapedBut, Chained, Unread, Chunk, Blocks, Content;
      HeadOpen();
      ghost var rest := Unread(blks[1..]);
      ghost var c := Chunk(phead);
      ChunkAdvanced(phead.data[..], phead.pos, n, phead.len);
      OwnChunk(phead);
      phead.pos := phead.pos + n;
      OwnChunk(phead);
      assert Unread(blks[1..]) == rest;
      assert (c + rest)[n..] == c[n..] + rest;
      HeadClosed();
    }

    lemma ChunkAdvanced(d: seq<byte>, pos: nat, n: nat, len: nat)
      requires pos + n <= len <= |d|
      ensures d[pos + n..len] == d[pos..len][n..]
    {
    }

    lemma OwnChunk(b: Blk)
      requires b.pos <= b.len <= b.data.Length
      ensures Chunk(b) == b.data[..][b.pos..b.len]
    {
    }

    // The shape without how far the head block has been read.
    ghost predicate ShapedBut(bs: seq<Blk>, n: nat)
      requires |bs| > 0
      reads bs`len, bs[1..]`pos
    {
      && n > 0 && bs[0].len <= n
      && (forall i :: 0 <= i < |bs| ==> bs[i].data.Length == n)
      && (forall i :: 1 <= i < |bs| ==> bs[1..][i - 1].pos == 0 < bs[i].len <= n)
      && (forall i :: 0 <= i < |bs| - 1 ==> bs[i].len == n)
      && (forall i, j :: 0 <= i < j < |bs| ==> bs[i].data != bs[j].data)
    }

    lemma ShapeOfHead(bs: seq<Blk>, n: nat)
      requires |bs| > 0
      ensures Shaped(bs, n, false) <==> ShapedBut(bs, n) && bs[0].pos < bs[0].len
    {
      assert forall i :: 1 <= i < |bs| ==> bs[1..][i - 1] == bs[i];
    }

    // The queue as its head block and what is behind it.
    lemma HeadOpen()
      requires Blocks(false) && phead != null
      ensures |blks| > 0 && phead == blks[0] && BlkSize() > 0 && Chained(blks, phead, ptail) && ShapedBut(blks, BlkSize())
      ensures phead.pos < phead.len <= phead.data.Length && Content() == Chunk(phead) + Unread(blks[1..])
      ensures phead !in blks[1..] && forall b :: b in blks[1..] ==> b.data != phead.data
    {
      ShapeOfHead(blks, BlkSize());
      hide Shaped, Links, Chunk;
      assert forall b :: b in blks[1..] ==> exists i :: 1 <= i < |blks| && blks[i] == b;
    }

    lemma HeadClosed()
      requires |blks| > 0 && phead == blks[0] && BlkSize() > 0 && Chained(blks, phead, ptail) && ShapedBut(blks, BlkSize())
      requires phead.pos < phead.len
      ensures Blocks(false) && Content() == Chunk(phead) + Unread(blks[1..])
    {
      hide Shaped, ShapedBut, Chained, Chunk;
      ShapeOfHead(blks, BlkSize());
    }

    // What freesize keeps while it runs.
    ghost predicate Freeing()
      reads this`phead, this`ptail, this`blks, blks`pos, blks`len, blks`pnext, pallocator, pallocator.Repr()
    {
      Blocks(false) && pallocator.Valid() && Owned(blks, pallocator.Live())
    }

    // The first branch of freesize: more in the head block than is to leave.
    method FreePart(n: nat)
      requires Freeing() && phead != null && n < phead.len - phead.pos
      modifies phead`pos
      ensures Freeing() && n <= |old(Content())| && Content() == old(Content())[n..] && Others() == old(Others())
    {
      hide Owned, Blocks, Mems, Content, BlkAlloctor.Repr;
      Advance(n);
    }

    // The other branch: the head block goes.
    method FreeWhole() returns (n: nat)
      requires Freeing() && phead != null
      modifies this`phead, this`ptail, this`blks, pallocator.Repr()
      ensures Freeing() && n == old(phead.len - phead.pos) > 0 && n <= |old(Content())| && Content() == old(Content())[n..]
      ensures Others() == old(Others()) && pallocator.Repr() <= old(pallocator.Repr())
      ensures |old(blks)| > 0 && blks == old(blks)[1..] && size == old(size) && forall b :: b in blks ==> unchanged(b)
    {
      hide Owned, Blocks, Mems, Content, Others, Chunk, BlkAlloctor.Repr, BlkAlloctor.Valid;
      HeadChunk();
      n := phead.len - phead.pos;
      FreeHead();
    }

    lemma HeadIn()
      requires Freeing() && phead != null
      ensures phead in blks
    {
    }

    // One turn of freesize.
    method FreeTurn(zt: nat) returns (n: nat)
      requires Freeing() && phead != null && zt > 0
      modifies this`phead, this`ptail, this`blks, blks`pos, pallocator.Repr()
      ensures Freeing() && 0 < n <= zt && n <= |old(Content())| && Content() == old(Content())[n..]
      ensures Others() == old(Others()) && pallocator.Repr() <= old(pallocator.Repr())
      ensures |blks| <= |old(blks)| && blks == old(blks)[|old(blks)| - |blks|..] && size == old(size)
    {
      hide *;
      HeadIn();
      if phead.len - phead.pos > zt {
        FreePart(zt);
        n := zt;
      } else {
        n := FreeWhole();
      }
    }

    /** freesize: that many bytes, or all, leave at the front; read blocks go back to the allocator. */
    method FreeSize(zlen: nat)
      requires Valid()
      modifies this`phead, this`ptail, this`size, this`blks, blks`pos, pallocator.Repr()
      ensures Valid() && Others() == old(Others())
      ensures Content() == old(Content())[if zlen <= |old(Content())| then zlen else |old(Content())|..]
      ensures pallocator.Repr() <= old(pallocator.Repr()) && forall b :: b in blks ==> b in old(blks)
    {
      hide *;
      FreeStart();
      NodesApart();
      ghost var all := Content();
      ghost var bs := blks;
      var zfree := 0;
      assert all[0..] == all;
      while zfree < zlen && phead != null
        invariant Freeing() && zfree <= zlen && zfree <= |all| && Content() == all[zfree..]
        invariant Others() == old(Others()) && pallocator.Repr() <= old(pallocator.Repr()) && size == old(size)
        invariant |blks| <= |bs| && blks == bs[|bs| - |blks|..] && forall b :: b in bs ==> b.len == old(b.len)
        decreases zlen - zfree
      {
        var n := FreeTurn(zlen - zfree);
        assert all[zfree..][n..] == all[zfree + n..];
        zfree := zfree + n;
      }
      EmptyQueue();
      var left: int := if size >= zfree then size - zfree else 0;
      size := left;
      assert |blks| > 0 ==> blks[|blks| - 1] == bs[|bs| - 1];
      FreeEnd();
    }

    lemma FreeStart()
      requires Valid()
      ensures Freeing() && size == |Content()| && size <= sizemax + if |blks| == 0 then 0 else blks[|blks| - 1].len
    {
    }

    lemma EmptyQueue()
      requires Freeing()
      ensures phead == null ==> Content() == []
    {
    }

    lemma FreeEnd()
      requires Freeing() && size == |Content()| && (|blks| > 0 ==> size <= sizemax + blks[|blks| - 1].len)
      ensures Valid()
    {
    }

    /** clear: every block goes back, once. */
    method Clear()
      requires Valid()
      modifies this`phead, this`ptail, this`size, this`blks, pallocator.Repr()
      ensures Valid() && Content() == [] && pallocator.Live() == old(Others()) && pallocator.Repr() <= old(pallocator.Repr())
    {
      hide *;
      FreeStart();
      NodesApart();
      while phead != null
        invariant Freeing() && Others() == old(Others()) && pallocator.Repr() <= old(pallocator.Repr())
        decreases |blks|
      {
        ghost var n := FreeWhole();
      }
      EmptyQueue();
      size := 0;
      ClearEnd();
    }

    lemma ClearEnd()
      requires Freeing() && phead == null && size == 0
      ensures Valid() && Content() == [] && pallocator.Live() == Others()
    {
    }
  }
}
