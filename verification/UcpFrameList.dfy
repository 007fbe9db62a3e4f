/** class frmlist with the operations of frmlist_send and frmlist_recv: the doubly linked list of
    frames, relinked in place. The ghost fields say what it holds; UcpFrames says what that means. */
module UcpFrameList {
  import opened Bytes
  import opened UcpFrames
  import UcpFrame

  class Node {
    var seqno: nat
    var cntresend: nat
    var numchklost: nat
    var mstime: int
    var frm: seq<byte>
    var prior: Node?
    var next: Node?

    // makenode
    constructor (seqno: nat, mstime: int, frm: seq<byte>)
      ensures Get() == Entry(seqno, 0, 0, mstime, frm)
      ensures prior == null && next == null
    {
      this.seqno, this.cntresend, this.numchklost, this.mstime, this.frm := seqno, 0, 0, mstime, frm;
      prior, next := null, null;
    }

    function Get(): Entry
      reads this`seqno, this`cntresend, this`numchklost, this`mstime, this`frm
    {
      Entry(seqno, cntresend, numchklost, mstime, frm)
    }
  }

  function At(ns: seq<Node>, i: int): Node? {
    if 0 <= i < |ns| then ns[i] else null
  }

  ghost predicate Distinct(ns: seq<Node>) {
    forall i, j :: 0 <= i < j < |ns| ==> ns[i] != ns[j]
  }

  ghost predicate Chained(ns: seq<Node>)
    reads ns`next, ns`prior
  {
    forall i {:trigger ns[i].next} {:trigger ns[i].prior} :: 0 <= i < |ns| ==> ns[i].next == At(ns, i + 1) && ns[i].prior == At(ns, i - 1)
  }

  ghost function SpliceNodes(ns: seq<Node>, pf: Node, k: nat): (r: seq<Node>)
    requires k <= |ns|
    ensures |r| == |ns| + 1 && r[k] == pf
    ensures forall i :: 0 <= i < k ==> r[i] == ns[i]
    ensures forall i :: k < i < |r| ==> r[i] == ns[i - 1]
  {
    ns[..k] + [pf] + ns[k..]
  }

  // pf is linked in at k, and ns is otherwise still chained.
  ghost predicate LinkedIn(ns: seq<Node>, pf: Node, k: nat)
    requires k <= |ns|
    reads ns, pf
  {
    && pf.next == At(ns, k) && pf.prior == At(ns, k - 1)
    && forall i {:trigger ns[i].next} {:trigger ns[i].prior} :: 0 <= i < |ns| ==>
         ns[i].next == (if i == k - 1 then pf else At(ns, i + 1)) && ns[i].prior == if i == k then pf else At(ns, i - 1)
  }

  // Once the links around k are in place, the chain with pf spliced in is a chain.
  lemma ChainedAfterSplice(ns: seq<Node>, pf: Node, k: nat)
    requires Distinct(ns) && pf !in ns && k <= |ns|
    requires LinkedIn(ns, pf, k)
    ensures Chained(SpliceNodes(ns, pf, k)) && Distinct(SpliceNodes(ns, pf, k))
  {
    hide SpliceNodes;
    var r := SpliceNodes(ns, pf, k);
    forall i {:trigger r[i].next} {:trigger r[i].prior} | 0 <= i < |r|
      ensures r[i].next == At(r, i + 1) && r[i].prior == At(r, i - 1)
    {
      if i < k {
        assert r[i] == ns[i];
      } else if i > k {
        assert r[i] == ns[i - 1];
      }
    }
  }

  lemma GetsAfterSplice(ns: seq<Node>, es: seq<Entry>, pf: Node, k: nat)
    requires |ns| == |es| && k <= |ns|
    requires forall i {:trigger ns[i]} :: 0 <= i < |ns| ==> ns[i].Get() == es[i]
    ensures forall i {:trigger SpliceNodes(ns, pf, k)[i]} :: 0 <= i < |ns| + 1 ==> SpliceNodes(ns, pf, k)[i].Get() == Splice(es, pf.Get(), k)[i]
  {
    hide SpliceNodes, Splice;
  }

  // The neighbours of node k point past it.
  ghost predicate SkippedOver(ns: seq<Node>, k: nat)
    reads ns
  {
    forall i {:trigger ns[i].next} {:trigger ns[i].prior} :: 0 <= i < |ns| ==>
      ns[i].next == At(ns, if i == k - 1 then i + 2 else i + 1) && ns[i].prior == At(ns, if i == k + 1 then i - 2 else i - 1)
  }

  function Without<T>(s: seq<T>, k: nat): (r: seq<T>)
    requires k < |s|
    ensures |r| == |s| - 1
    ensures forall i :: 0 <= i < k ==> r[i] == s[i]
    ensures forall i :: k <= i < |r| ==> r[i] == s[i + 1]
  {
    s[..k] + s[k + 1..]
  }

  // When the neighbours of node k point past it, the chain without k is a chain.
  lemma ChainedAfterDrop(ns: seq<Node>, k: nat)
    requires Distinct(ns) && k < |ns| && SkippedOver(ns, k)
    ensures Chained(Without(ns, k)) && Distinct(Without(ns, k))
  {
    hide Without;
    var r := Without(ns, k);
    forall i {:trigger r[i].next} {:trigger r[i].prior} | 0 <= i < |r|
      ensures r[i].next == At(r, i + 1) && r[i].prior == At(r, i - 1)
    {
      if i < k {
        assert r[i] == ns[i];
      } else {
        assert r[i] == ns[i + 1];
      }
    }
  }

  ghost predicate Within(ns: seq<Node>, fp: set<Node>) {
    forall i :: 0 <= i < |ns| ==> ns[i] in fp
  }

  // j entries of es0 are dealt with: the k kept ones lead es, the others follow untouched.
  ghost predicate AckedUpTo(es: seq<Entry>, es0: seq<Entry>, j: nat, k: nat, upto: nat, nos: seq<nat>) {
    && j <= |es0| && k <= |es| && |es| - k == |es0| - j
    && es[k..] == es0[j..] && es[..k] == AckDel(es0[..j], upto, nos)
  }

  lemma AckProgress(es: seq<Entry>, es0: seq<Entry>, j: nat, k: nat, upto: nat, nos: seq<nat>, m: nat)
    requires AckedUpTo(es, es0, j, k, upto, nos) && k < |es|
    ensures j < |es0| && es0[j] == es[k]
    ensures var del := Confirmed(es[k].seqno, upto, nos);
            && AckedUpTo(if del then Without(es, k) else es[k := Skipped(es[k], nos)], es0, j + 1, if del then k else k + 1, upto, nos)
            && AckMax(es0[..j + 1], upto, nos, m)
               == if del then Max(AckMax(es0[..j], upto, nos, m), es[k].seqno) else AckMax(es0[..j], upto, nos, m)
  {
    assert es[k..][0] == es0[j..][0];
    assert es0[..j + 1] == es0[..j] + [es0[j]];
    AckDelAppend(es0[..j], es0[j], upto, nos);
    AckMaxAppend(es0[..j], es0[j], upto, nos, m);
    assert es[k..][1..] == es[k + 1..] && es0[j..][1..] == es0[j + 1..];
  }

  class FrameList {
    var head: Node?
    var tail: Node?
    var size: nat
    var maxseqno: nat    // frmlist_recv::_maxseqno
    var numresend: nat   // frmlist_send::_numPkgResend
    ghost var nodes: seq<Node>
    ghost var es: seq<Entry>

    // The chain is exactly nodes, its links are mutually inverse, and _size counts it.
    ghost predicate Valid()
      reads this, nodes
    {
      && |es| == |nodes| == size && Increasing(es)
      && head == At(nodes, 0) && tail == At(nodes, |nodes| - 1)
      && Distinct(nodes) && Chained(nodes)
      && (forall i {:trigger nodes[i]} :: 0 <= i < |nodes| ==> nodes[i].Get() == es[i])
    }

    // As Valid, but for one node that _size has missed.
    ghost predicate Uncounted()
      reads this, nodes
    {
      && |es| == |nodes| == size + 1 && Increasing(es)
      && head == At(nodes, 0) && tail == At(nodes, |nodes| - 1)
      && Distinct(nodes) && Chained(nodes)
      && (forall i {:trigger nodes[i]} :: 0 <= i < |nodes| ==> nodes[i].Get() == es[i])
    }

    constructor ()
      ensures Valid() && es == [] && nodes == [] && maxseqno == 0 && numresend == 0
    {
      head, tail, size, maxseqno, numresend := null, null, 0, 0, 0;
      nodes, es := [], [];
    }

    // Changes elsewhere do not disturb the list.
    twostate lemma ValidKept()
      requires old(Valid()) && unchanged(this) && unchanged(nodes)
      ensures Valid()
    {
    }

    lemma NodeEach()
      requires Valid()
      ensures |nodes| == |es|
    {
    }

    // The relinking in push_back: pf becomes the tail.
    method LinkLast(pf: Node)
      requires Valid() && pf !in nodes
      requires forall i :: 0 <= i < |es| ==> es[i].seqno < pf.seqno
      modifies this`head, this`tail, this`size, this`nodes, this`es, nodes, pf
      ensures Valid() && nodes == old(nodes) + [pf]
      ensures es == old(es) + [old(pf.Get())]
    {
      hide Increasing;
      LinkTail(pf);
      ghost var ns, e := nodes, es;
      IncreasingLast(e, pf.Get());
      ChainedLast(ns, pf);
      nodes := ns + [pf];
      es := e + [pf.Get()];
    }

    method LinkTail(pf: Node)
      requires Distinct(nodes) && Chained(nodes) && pf !in nodes && size == |nodes| && head == At(nodes, 0) && tail == At(nodes, |nodes| - 1)
      modifies this`head, this`tail, this`size, nodes`next, nodes`prior, pf`next, pf`prior
      ensures size == |nodes| + 1 && tail == pf && head == (if |nodes| == 0 then pf else nodes[0])
      ensures EndsWith(nodes, pf)
    {
      pf.prior := tail;
      pf.next := null;
      if tail != null {
        tail.next := pf;
      } else {
        head := pf;
      }
      tail := pf;
      size := size + 1;
    }

    // The links of ns when pf has been hooked to its last node.
    ghost predicate EndsWith(ns: seq<Node>, pf: Node)
      reads ns, pf
    {
      && pf.next == null && pf.prior == At(ns, |ns| - 1)
      && forall i {:trigger ns[i].next} {:trigger ns[i].prior} :: 0 <= i < |ns| ==>
        ns[i].next == (if i == |ns| - 1 then pf else At(ns, i + 1)) && ns[i].prior == At(ns, i - 1)
    }

    lemma ChainedLast(ns: seq<Node>, pf: Node)
      requires Distinct(ns) && pf !in ns && EndsWith(ns, pf)
      ensures Chained(ns + [pf]) && Distinct(ns + [pf])
    {
      var r := ns + [pf];
      forall i {:trigger r[i].next} {:trigger r[i].prior} | 0 <= i < |r|
        ensures r[i].next == At(r, i + 1) && r[i].prior == At(r, i - 1)
      {
        if i < |ns| {
          assert r[i] == ns[i];
        }
      }
    }

    lemma IncreasingLast(s: seq<Entry>, e: Entry)
      requires Increasing(s) && forall i :: 0 <= i < |s| ==> s[i].seqno < e.seqno
      ensures Increasing(s + [e])
    {
    }

    // The relinking in insert_head: pf goes in front of p, which is node k.
    method LinkBefore(pf: Node, p: Node, ghost k: nat)
      requires Distinct(nodes) && Chained(nodes) && pf !in nodes && k < |nodes| && p == nodes[k]
      requires size == |nodes| && head == At(nodes, 0)
      modifies this`head, this`size, nodes`next, nodes`prior, pf`next, pf`prior
      ensures LinkedIn(nodes, pf, k)
      ensures forall i {:trigger nodes[i]} :: 0 <= i < |nodes| ==> nodes[i].Get() == old(nodes[i].Get())
      ensures size == |nodes| + 1 && head == if k == 0 then pf else At(nodes, 0)
    {
      pf.prior := p.prior;
      pf.next := p;
      if p.prior != null {
        p.prior.next := pf;
      } else {
        head := pf;
      }
      p.prior := pf;
      size := size + 1;
    }

    // The relinking in insert_tail: pf goes behind p, which is node k - 1.
    method LinkAfter(pf: Node, p: Node, ghost k: nat)
      requires Distinct(nodes) && Chained(nodes) && pf !in nodes && 0 < k <= |nodes| && p == nodes[k - 1]
      requires size == |nodes| && tail == At(nodes, |nodes| - 1)
      modifies this`tail, this`size, nodes`next, nodes`prior, pf`next, pf`prior
      ensures LinkedIn(nodes, pf, k)
      ensures forall i {:trigger nodes[i]} :: 0 <= i < |nodes| ==> nodes[i].Get() == old(nodes[i].Get())
      ensures size == |nodes| + 1 && tail == if k == |nodes| then pf else At(nodes, |nodes| - 1)
    {
      pf.next := p.next;
      if p.next != null {
        p.next.prior := pf;
      } else {
        tail := pf;
      }
      pf.prior := p;
      p.next := pf;
      size := size + 1;
    }

    // The relinking behind the loop of insert_tail: pf goes in front, and size stays.
    method LinkFront(pf: Node)
      requires Distinct(nodes) && Chained(nodes) && pf !in nodes && |nodes| > 0 && head == nodes[0] && pf.prior == null
      modifies this`head, nodes`prior, pf`next
      ensures LinkedIn(nodes, pf, 0) && head == pf
      ensures forall i {:trigger nodes[i]} :: 0 <= i < |nodes| ==> nodes[i].Get() == old(nodes[i].Get())
    {
      pf.next := head;
      head.prior := pf;
      head := pf;
    }

    lemma NodesAfterSplice(ns: seq<Node>, pf: Node, k: nat)
      requires k <= |ns|
      ensures forall n :: n in SpliceNodes(ns, pf, k) ==> n in ns || n == pf
    {
    }

    // The ghost side of an insertion: what the list holds now.
    ghost method RecordSplice(pf: Node, k: nat, counted: bool)
      requires |es| == |nodes| == (if counted then size - 1 else size) && Increasing(es) && Distinct(nodes) && pf !in nodes && k <= |nodes|
      requires LinkedIn(nodes, pf, k)
      requires head == (if k == 0 then pf else At(nodes, 0)) && tail == if k == |nodes| then pf else At(nodes, |nodes| - 1)
      requires forall i {:trigger nodes[i]} :: 0 <= i < |nodes| ==> nodes[i].Get() == es[i]
      requires forall i :: 0 <= i < k ==> es[i].seqno < pf.seqno
      requires forall i :: k <= i < |es| ==> pf.seqno < es[i].seqno
      modifies this`nodes, this`es
      ensures if counted then Valid() else Uncounted()
      ensures es == Splice(old(es), pf.Get(), k) && forall n :: n in nodes ==> n in old(nodes) || n == pf
    {
      hide Chained, LinkedIn, Distinct, Increasing, SpliceNodes, Splice;
      NodesAfterSplice(nodes, pf, k);
      GetsAfterSplice(nodes, es, pf, k);
      ChainedAfterSplice(nodes, pf, k);
      IncreasingAfterSplice(es, pf.Get(), k);
      es := Splice(es, pf.Get(), k);
      nodes := SpliceNodes(nodes, pf, k);
    }

    // push_back(seqno, msec, pfrm, frmsize)
    method PushBack(seqno: nat, msec: int, frm: seq<byte>) returns (r: int)
      requires Valid()
      requires forall i :: 0 <= i < |es| ==> es[i].seqno < seqno
      modifies this`head, this`tail, this`size, this`nodes, this`es, nodes
      ensures Valid() && forall n :: n in nodes ==> n in old(nodes) || fresh(n)
      ensures if |frm| > UcpFrame.MTU then r == -1 && es == old(es) else r == 0 && es == old(es) + [Entry(seqno, 0, 0, msec, frm)]
    {
      if |frm| > UcpFrame.MTU {
        return -1;
      }
      var pf := new Node(seqno, msec, frm);
      LinkLast(pf);
      r := 0;
    }

    // A new node in front of p, which is node k.
    method InsertBefore(p: Node, ghost k: nat, seqno: nat, msec: int, frm: seq<byte>)
      requires Valid() && k < |nodes| && p == nodes[k]
      requires forall i :: 0 <= i < k ==> es[i].seqno < seqno
      requires seqno < es[k].seqno
      modifies this`head, this`size, this`nodes, this`es, nodes
      ensures Valid() && forall n :: n in nodes ==> n in old(nodes) || fresh(n)
      ensures es == Splice(old(es), Entry(seqno, 0, 0, msec, frm), k)
    {
      hide Chained, LinkedIn, Distinct, SpliceNodes, Splice;
      var pf := new Node(seqno, msec, frm);
      LinkBefore(pf, p, k);
      RecordSplice(pf, k, true);
    }

    // A new node behind p, which is node k - 1.
    method InsertAfter(p: Node, ghost k: nat, seqno: nat, msec: int, frm: seq<byte>)
      requires Valid() && 0 < k <= |nodes| && p == nodes[k - 1]
      requires es[k - 1].seqno < seqno
      requires forall i :: k <= i < |es| ==> seqno < es[i].seqno
      modifies this`tail, this`size, this`nodes, this`es, nodes
      ensures Valid() && forall n :: n in nodes ==> n in old(nodes) || fresh(n)
      ensures es == Splice(old(es), Entry(seqno, 0, 0, msec, frm), k)
    {
      hide Chained, LinkedIn, Distinct, SpliceNodes, Splice;
      var pf := new Node(seqno, msec, frm);
      LinkAfter(pf, p, k);
      RecordSplice(pf, k, true);
    }

    // A new node at the end, behind all numbers.
    method InsertLast(seqno: nat, msec: int, frm: seq<byte>)
      requires Valid() && forall i :: 0 <= i < |es| ==> es[i].seqno < seqno
      modifies this`head, this`tail, this`size, this`nodes, this`es, nodes
      ensures Valid() && forall n :: n in nodes ==> n in old(nodes) || fresh(n)
      ensures es == Insert(old(es), Entry(seqno, 0, 0, msec, frm))
    {
      hide Chained, Distinct, Insert;
      InsertAtEnd(es, Entry(seqno, 0, 0, msec, frm));
      var pf := new Node(seqno, msec, frm);
      LinkLast(pf);
    }

    // A new node in front of all, which the size misses.
    method InsertFirstUncounted(seqno: nat, msec: int, frm: seq<byte>)
      requires Valid() && es != [] && seqno < es[0].seqno
      modifies this`head, this`nodes, this`es, nodes
      ensures Uncounted() && forall n :: n in nodes ==> n in old(nodes) || fresh(n)
      ensures es == Splice(old(es), Entry(seqno, 0, 0, msec, frm), 0)
    {
      hide Chained, LinkedIn, Distinct, SpliceNodes, Splice;
      AllAbove(es, seqno);
      var pf := new Node(seqno, msec, frm);
      LinkFront(pf);
      RecordSplice(pf, 0, false);
    }

    lemma AllAbove(s: seq<Entry>, n: nat)
      requires Increasing(s) && s != [] && n < s[0].seqno
      ensures forall i :: 0 <= i < |s| ==> n < s[i].seqno
    {
    }

    // insert_head: walk forward to the first entry not below seqno, else append.
    method InsertHead(seqno: nat, msec: int, frm: seq<byte>) returns (r: int)
      requires Valid() && es != []
      modifies this`head, this`tail, this`size, this`nodes, this`es, nodes
      ensures Valid() && forall n :: n in nodes ==> n in old(nodes) || fresh(n)
      ensures r == 0 && es == Insert(old(es), Entry(seqno, 0, 0, msec, frm))
    {
      hide Distinct, Splice, Insert;
      var p := head;
      ghost var k := 0;
      while p != null
        invariant 0 <= k <= |nodes| && p == At(nodes, k)
        invariant forall i :: 0 <= i < k ==> es[i].seqno < seqno
        decreases |nodes| - k
      {
        assert p.Get() == es[k];
        if p.seqno >= seqno {
          InsertAt(es, Entry(seqno, 0, 0, msec, frm), k);
          if p.seqno > seqno {
            InsertBefore(p, k, seqno, msec, frm);
          }
          return 0;
        }
        p := p.next;
        k := k + 1;
      }
      InsertLast(seqno, msec, frm);
      r := 0;
    }

    // insert_tail: walk backward to the last entry below seqno. The code after the loop links a new head
    // without counting it: the size stays exact if and only if the first number is not above seqno.
    method InsertTail(seqno: nat, msec: int, frm: seq<byte>) returns (r: int)
      requires Valid() && es != []
      modifies this`head, this`tail, this`size, this`nodes, this`es, nodes
      ensures if old(es[0].seqno) <= seqno then Valid() else Uncounted()
      ensures forall n :: n in nodes ==> n in old(nodes) || fresh(n)
      ensures r == 0 && es == Insert(old(es), Entry(seqno, 0, 0, msec, frm))
    {
      hide Distinct, Splice, Insert;
      var p := tail;
      ghost var k: int := |nodes| - 1;
      while p != null
        invariant -1 <= k < |nodes| && p == At(nodes, k)
        invariant forall i :: k < i < |es| ==> seqno < es[i].seqno
        decreases k
      {
        assert p.Get() == es[k];
        if p.seqno == seqno {
          InsertAt(es, Entry(seqno, 0, 0, msec, frm), k);
          return 0;
        }
        if p.seqno < seqno {
          InsertAt(es, Entry(seqno, 0, 0, msec, frm), k + 1);
          InsertAfter(p, k + 1, seqno, msec, frm);
          return 0;
        }
        p := p.prior;
        k := k - 1;
      }
      InsertAt(es, Entry(seqno, 0, 0, msec, frm), 0);
      InsertFirstUncounted(seqno, msec, frm);
      r := 0;
    }

    // insert_fast: from the nearer end, by 64-bit differences; a first node into the empty list.
    method InsertFast(seqno: nat, msec: int, frm: seq<byte>) returns (r: int)
      requires Valid()
      modifies this`head, this`tail, this`size, this`nodes, this`es, nodes
      ensures Valid() && forall n :: n in nodes ==> n in old(nodes) || fresh(n)
      ensures if |frm| > UcpFrame.MTU then r == -1 && es == old(es)
              else r == 0 && es == Insert(old(es), Entry(seqno, 0, 0, msec, frm))
    {
      hide Chained, Distinct, Insert;
      if |frm| > UcpFrame.MTU {
        return -1;
      }
      if head == null {
        InsertLast(seqno, msec, frm);
        return 0;
      }
      assert head.Get() == es[0] && tail.Get() == es[|es| - 1];
      if seqno <= head.seqno || seqno - head.seqno < (tail.seqno - seqno) % UcpFrame.SEQ_END {
        r := InsertHead(seqno, msec, frm);
      } else {
        r := InsertTail(seqno, msec, frm);
      }
    }

    // frmlist_recv::add
    method Add(seqno: nat, frm: seq<byte>) returns (r: int)
      requires Valid()
      modifies this`head, this`tail, this`size, this`nodes, this`es, this`maxseqno, nodes
      ensures Valid() && forall n :: n in nodes ==> n in old(nodes) || fresh(n)
      ensures maxseqno == Max(old(maxseqno), seqno)
      ensures if |frm| > UcpFrame.MTU then r == -1 && es == old(es)
              else r == 0 && es == Insert(old(es), Entry(seqno, 0, 0, 0, frm))
    {
      hide Chained, Distinct, Insert;
      if maxseqno < seqno {
        maxseqno := seqno;
      }
      assert tail != null ==> tail.Get() == es[|es| - 1];
      if tail == null || tail.seqno < seqno {
        InsertAtEnd(es, Entry(seqno, 0, 0, 0, frm));
        r := PushBack(seqno, 0, frm);
      } else {
        r := InsertFast(seqno, 0, frm);
      }
    }

    // The end of ackread: pf, node nr of the old list, becomes the head.
    method DropPrefix(pf: Node?, ghost nr: nat)
      requires Distinct(nodes) && Chained(nodes) && nr <= |nodes|
      requires head == At(nodes, 0) && tail == At(nodes, |nodes| - 1) && size == |nodes| - nr && pf == At(nodes, nr)
      modifies this`head, this`tail, this`size, nodes`prior
      ensures Chained(nodes[nr..]) && Distinct(nodes[nr..])
      ensures head == At(nodes, nr) && tail == (if nr < |nodes| then At(nodes, |nodes| - 1) else null) && size == |nodes| - nr
    {
      if pf != null {
        pf.prior := null;
        head := pf;
      } else {
        head := null;
        tail := null;
        size := 0;
      }
      ghost var r := nodes[nr..];
      assert forall i {:trigger r[i]} :: 0 <= i < |r| ==> r[i] == nodes[nr + i];
    }

    // The state of ackread's loop: nr nodes are collected, pf is the next one.
    ghost predicate ReadLoop(nxtrcvno: nat, nr: nat, frmout: seq<Node>, pf: Node?)
      reads this, nodes
    {
      && |es| == |nodes| && Increasing(es) && Distinct(nodes) && Chained(nodes)
      && head == At(nodes, 0) && tail == At(nodes, |nodes| - 1)
      && (forall i {:trigger nodes[i]} :: 0 <= i < |nodes| ==> nodes[i].Get() == es[i])
      && nr <= |nodes| && size == |nodes| - nr && pf == At(nodes, nr) && frmout == nodes[..nr]
      && RunLength(es, nxtrcvno) == nr + RunLength(es[nr..], nxtrcvno + nr)
    }

    // One turn of the loop in ackread.
    method ReadTurn(nxtrcvno: nat, nr: nat, frmout: seq<Node>, pf: Node) returns (frmout': seq<Node>, next: Node?)
      requires ReadLoop(nxtrcvno, nr, frmout, pf) && pf.seqno == nxtrcvno + nr
      modifies this`size
      ensures ReadLoop(nxtrcvno, nr + 1, frmout', next) && nr < |nodes|
    {
      hide Chained, Distinct, Increasing, RunLength;
      assert pf.Get() == es[nr];
      RunOn(es, nr, nxtrcvno);
      assert nodes[..nr] + [pf] == nodes[..nr + 1];
      frmout' := frmout + [pf];
      next := NextOf(pf, nr);
      size := size - 1;
    }

    lemma RunOn(s: seq<Entry>, nr: nat, nxt: nat)
      requires nr < |s| && s[nr].seqno == nxt + nr
      ensures RunLength(s[nr..], nxt + nr) == 1 + RunLength(s[nr + 1..], nxt + nr + 1)
    {
      assert s[nr..][1..] == s[nr + 1..];
    }

    method NextOf(pf: Node, ghost k: nat) returns (n: Node?)
      requires Chained(nodes) && k < |nodes| && pf == nodes[k]
      ensures n == At(nodes, k + 1)
    {
      n := pf.next;
    }

    lemma ReadDone(nxtrcvno: nat, nr: nat, frmout: seq<Node>, pf: Node?)
      requires ReadLoop(nxtrcvno, nr, frmout, pf) && (pf == null || pf.seqno != nxtrcvno + nr)
      ensures nr == RunLength(es, nxtrcvno) && |frmout| == nr
      ensures forall i :: 0 <= i < nr ==> frmout[i].Get() == es[i]
    {
      assert pf != null ==> pf.Get() == es[nr];
    }

    // The loop of ackread.
    method ReadRun(nxtrcvno: nat) returns (nr: nat, frmout: seq<Node>, pf: Node?)
      requires Valid()
      modifies this`size
      ensures ReadLoop(nxtrcvno, nr, frmout, pf) && nr == RunLength(es, nxtrcvno) && |frmout| == nr
      ensures forall i :: 0 <= i < nr ==> frmout[i].Get() == es[i]
    {
      nr, frmout, pf := 0, [], head;
      assert es[0..] == es;
      assert ReadLoop(nxtrcvno, nr, frmout, pf);
      hide ReadLoop, Valid, RunLength;
      while pf != null && pf.seqno == nxtrcvno + nr
        invariant ReadLoop(nxtrcvno, nr, frmout, pf)
        decreases |nodes| - nr
      {
        frmout, pf := ReadTurn(nxtrcvno, nr, frmout, pf);
        nr := nr + 1;
      }
      ReadDone(nxtrcvno, nr, frmout, pf);
    }

    // frmlist_recv::ackread: hand over the leading nodes numbered nxtrcvno, nxtrcvno + 1, ...
    method AckRead(nxtrcvno: nat) returns (nr: nat, frmout: seq<Node>)
      requires Valid()
      modifies this`head, this`tail, this`size, this`nodes, this`es, nodes`prior
      ensures Valid() && nr == RunLength(old(es), nxtrcvno)
      ensures nodes == old(nodes)[nr..] && es == old(es)[nr..]
      ensures |frmout| == nr && forall i :: 0 <= i < nr ==> frmout[i].Get() == old(es)[i]
    {
      hide Valid, ReadLoop, RunLength, Chained, Distinct, Increasing;
      var pf;
      nr, frmout, pf := ReadRun(nxtrcvno);
      Readable(nxtrcvno, nr, frmout, pf);
      DropPrefix(pf, nr);
      RecordDrop(nr);
    }

    lemma Readable(nxtrcvno: nat, nr: nat, frmout: seq<Node>, pf: Node?)
      requires ReadLoop(nxtrcvno, nr, frmout, pf)
      ensures Distinct(nodes) && Chained(nodes) && nr <= |nodes| == |es| && Increasing(es)
      ensures head == At(nodes, 0) && tail == At(nodes, |nodes| - 1) && size == |nodes| - nr && pf == At(nodes, nr)
      ensures forall i {:trigger nodes[i]} :: 0 <= i < |nodes| ==> nodes[i].Get() == es[i]
    {
    }

    ghost method RecordDrop(nr: nat)
      requires nr <= |nodes| == |es| && Increasing(es) && Chained(nodes[nr..]) && Distinct(nodes[nr..])
      requires head == At(nodes, nr) && tail == (if nr < |nodes| then At(nodes, |nodes| - 1) else null) && size == |nodes| - nr
      requires forall i {:trigger nodes[i]} :: 0 <= i < |nodes| ==> nodes[i].Get() == es[i]
      modifies this`nodes, this`es
      ensures Valid() && nodes == old(nodes)[nr..] && es == old(es)[nr..]
    {
      hide Chained, Distinct;
      nodes := nodes[nr..];
      es := es[nr..];
    }

    // The relinking in ack_del: the neighbours of pf, node k, skip it.
    method SkipOver(pf: Node, ghost k: nat)
      requires Distinct(nodes) && Chained(nodes) && k < |nodes| && pf == nodes[k]
      requires head == At(nodes, 0) && tail == At(nodes, |nodes| - 1)
      modifies this`head, this`tail, nodes`next, nodes`prior
      ensures SkippedOver(nodes, k)
      ensures head == At(nodes, if k == 0 then 1 else 0)
      ensures tail == At(nodes, if k == |nodes| - 1 then |nodes| - 2 else |nodes| - 1)
    {
      SkipLinks(pf, k);
      assert (pf == head <==> k == 0) && (pf == tail <==> k == |nodes| - 1);
      assert pf.next == At(nodes, k + 1) && pf.prior == At(nodes, k - 1);
      if pf == head {
        head := pf.next;
      }
      if pf == tail {
        tail := pf.prior;
      }
    }

    method SkipLinks(pf: Node, ghost k: nat)
      requires Distinct(nodes) && Chained(nodes) && k < |nodes| && pf == nodes[k]
      modifies nodes`next, nodes`prior
      ensures SkippedOver(nodes, k)
    {
      if pf.prior != null {
        pf.prior.next := pf.next;
      }
      if pf.next != null {
        pf.next.prior := pf.prior;
      }
    }

    method Unlink(pf: Node, ghost k: nat)
      requires Valid() && k < |nodes| && pf == nodes[k]
      modifies this`head, this`tail, this`size, this`nodes, this`es, nodes`next, nodes`prior
      ensures Valid() && nodes == Without(old(nodes), k) && es == Without(old(es), k)
    {
      hide Chained, SkippedOver, Distinct, Without;
      SkipOver(pf, k);
      size := size - 1;
      RecordWithout(k);
    }

    ghost method RecordWithout(k: nat)
      requires k < |nodes| == |es| == size + 1 && Increasing(es) && Distinct(nodes) && SkippedOver(nodes, k)
      requires head == At(nodes, if k == 0 then 1 else 0)
      requires tail == At(nodes, if k == |nodes| - 1 then |nodes| - 2 else |nodes| - 1)
      requires forall i {:trigger nodes[i]} :: 0 <= i < |nodes| ==> nodes[i].Get() == es[i]
      modifies this`nodes, this`es
      ensures Valid() && nodes == Without(old(nodes), k) && es == Without(old(es), k)
    {
      ChainedAfterDrop(nodes, k);
      hide Chained, SkippedOver, Distinct, Without;
      nodes := Without(nodes, k);
      es := Without(es, k);
    }

    // A miss counted on pf, node k: _numchklost++ on 16 bits.
    method CountMiss(pf: Node, ghost k: nat)
      requires Valid() && k < |nodes| && pf == nodes[k]
      modifies this`es, nodes`numchklost
      ensures Valid() && nodes == old(nodes)
      ensures es == old(es)[k := old(es)[k].(numchklost := (old(es)[k].numchklost + 1) % 0x1_0000)]
    {
      pf.numchklost := (pf.numchklost + 1) % 0x1_0000;
      es := es[k := pf.Get()];
    }

    // qsearch_(v, pnos, size)
    static method QSearchNos(v: nat, pnos: seq<nat>) returns (found: bool)
      ensures found == QSearch(v, pnos)
    {
      if |pnos| < 12 {
        for i := 0 to |pnos|
          invariant v !in pnos[..i]
        {
          if v == pnos[i] {
            return true;
          }
        }
        return false;
      }
      var nl, nh := 0, |pnos| - 1;
      while nl <= nh
        invariant 0 <= nl <= nh + 1 <= |pnos|
        invariant BinSearch(v, pnos, nl, nh) == BinSearch(v, pnos, 0, |pnos| - 1)
      {
        var nm := (nl + nh) / 2;
        if v == pnos[nm] {
          return true;
        } else if pnos[nm] < v {
          nl := nm + 1;
        } else {
          nh := nm - 1;
        }
      }
      found := false;
    }

    // One turn of the loop in ack_del: delete pf or count a miss on it, and step on.
    method AckStep(pf: Node, ghost k: nat, del: bool, pnos: seq<nat>, ghost fp: set<Node>) returns (next: Node?)
      requires Valid() && k < |nodes| && pf == nodes[k] && Within(nodes, fp)
      modifies this`head, this`tail, this`size, this`nodes, this`es, fp
      ensures Within(nodes, fp)
      ensures Valid() && nodes == if del then Without(old(nodes), k) else old(nodes)
      ensures es == if del then Without(old(es), k) else old(es)[k := Skipped(old(es)[k], pnos)]
      ensures next == At(old(nodes), k + 1)
    {
      assert pf.Get() == es[k];
      next := pf.next;
      hide Chained, Distinct, Increasing, Without;
      if del {
        Unlink(pf, k);
      } else if pnos != [] && pf.seqno < pnos[|pnos| - 1] {
        CountMiss(pf, k);
      }
    }

    // The state of ack_del's loop at pf: j entries of es0 seen, k of them kept.
    ghost predicate AckLoop(es0: seq<Entry>, j: nat, k: nat, upto: nat, pnos: seq<nat>, umax: nat, m: nat, fp: set<Node>, pf: Node?)
      reads this, nodes
    {
      && Valid() && Within(nodes, fp) && k <= |nodes| && pf == At(nodes, k)
      && j <= |es0| && AckedUpTo(es, es0, j, k, upto, pnos) && umax == AckMax(es0[..j], upto, pnos, m)
    }

    method AckTurn(pf: Node, ghost es0: seq<Entry>, ghost j: nat, ghost k: nat, upto: nat, pnos: seq<nat>, umax: nat, ghost m: nat,
                   ghost fp: set<Node>)
      returns (del: bool, umax': nat, next: Node?)
      requires AckLoop(es0, j, k, upto, pnos, umax, m, fp, pf)
      modifies this`head, this`tail, this`size, this`nodes, this`es, fp
      ensures AckLoop(es0, j + 1, if del then k else k + 1, upto, pnos, umax', m, fp, next) && j < |es0|
    {
      hide Valid, AckLoop, AckedUpTo, AckDel, AckMax, Skipped, Within, QSearch, Without, At;
      AckAt(es0, j, k, upto, pnos, umax, m, fp, pf);
      ghost var ns := nodes;
      var hit := QSearchNos(pf.seqno, pnos);
      del := pf.seqno <= upto || hit;
      AckProgress(es, es0, j, k, upto, pnos, m);
      umax' := if del then Max(umax, pf.seqno) else umax;
      next := AckStep(pf, k, del, pnos, fp);
      AckNext(es0, j + 1, k, upto, pnos, umax', m, fp, next, ns, del);
    }

    lemma AckAt(es0: seq<Entry>, j: nat, k: nat, upto: nat, pnos: seq<nat>, umax: nat, m: nat, fp: set<Node>, pf: Node)
      requires AckLoop(es0, j, k, upto, pnos, umax, m, fp, pf)
      ensures Valid() && Within(nodes, fp) && k < |nodes| == |es| && pf == nodes[k] && pf.seqno == es[k].seqno
      ensures j <= |es0| && AckedUpTo(es, es0, j, k, upto, pnos) && umax == AckMax(es0[..j], upto, pnos, m)
    {
      assert pf.Get() == es[k];
    }

    // ns were the nodes before the turn; the one at k may have gone.
    lemma AckNext(es0: seq<Entry>, j: nat, k: nat, upto: nat, pnos: seq<nat>, umax: nat, m: nat, fp: set<Node>, next: Node?,
                  ns: seq<Node>, del: bool)
      requires Valid() && Within(nodes, fp) && k < |ns| && nodes == (if del then Without(ns, k) else ns) && next == At(ns, k + 1)
      requires j <= |es0| && AckedUpTo(es, es0, j, if del then k else k + 1, upto, pnos) && umax == AckMax(es0[..j], upto, pnos, m)
      ensures AckLoop(es0, j, if del then k else k + 1, upto, pnos, umax, m, fp, next)
    {
      hide Valid, AckMax, AckedUpTo, Within;
    }

    lemma AckDone(es0: seq<Entry>, j: nat, k: nat, upto: nat, pnos: seq<nat>, umax: nat, m: nat, fp: set<Node>)
      requires AckLoop(es0, j, k, upto, pnos, umax, m, fp, null)
      ensures Valid() && j == |es0| && k == |es| && es == AckDel(es0, upto, pnos) && umax == AckMax(es0, upto, pnos, m)
      ensures forall n :: n in nodes ==> n in fp
    {
      assert es0[..j] == es0 && es[..k] == es;
    }

    // The loop of ack_del.
    method AckAll(act2no: nat, pnos: seq<nat>, m: nat, ghost fp: set<Node>) returns (nr: nat, umax: nat)
      requires Valid() && Within(nodes, fp)
      modifies this`head, this`tail, this`size, this`nodes, this`es, fp
      ensures Valid() && forall n :: n in nodes ==> n in fp
      ensures es == AckDel(old(es), act2no, pnos) && umax == AckMax(old(es), act2no, pnos, m) && nr == |old(es)| - |es|
    {
      hide AckLoop, Valid, AckMax, AckDel, Within;
      AckFirst(act2no, pnos, m, fp);
      nr, umax := 0, m;
      var pf := head;
      ghost var es0, j, k := es, 0, 0;
      while pf != null
        invariant j - k == nr && AckLoop(es0, j, k, act2no, pnos, umax, m, fp, pf)
        decreases |es0| - j
      {
        var del;
        del, umax, pf := AckTurn(pf, es0, j, k, act2no, pnos, umax, m, fp);
        if del {
          nr := nr + 1;
        } else {
          k := k + 1;
        }
        j := j + 1;
      }
      AckDone(es0, j, k, act2no, pnos, umax, m, fp);
    }

    lemma AckFirst(upto: nat, pnos: seq<nat>, m: nat, fp: set<Node>)
      requires Valid() && Within(nodes, fp)
      ensures AckLoop(es, 0, 0, upto, pnos, m, m, fp, head)
    {
    }

    // frmlist_send::ack_del(act2no, pnos, size, umaxseqno)
    method AckDelete(act2no: nat, pnos: seq<nat>, umaxseqno: nat) returns (nr: nat, umax: nat)
      requires Valid()
      modifies this`head, this`tail, this`size, this`nodes, this`es, nodes
      ensures Valid() && forall n :: n in nodes ==> n in old(nodes)
      ensures es == AckDel(old(es), act2no, pnos)
      ensures umax == AckMax(old(es), act2no, pnos, Max(umaxseqno, act2no))
      ensures nr == |old(es)| - |es|
    {
      nr, umax := AckAll(act2no, pnos, Max(umaxseqno, act2no), set n | n in nodes);
    }

    // The two tests in resend: timed out, or not yet resent and overtaken by later numbers.
    method DueNow(pf: Node, ghost k: nat, a: ResendArgs) returns (due: bool)
      requires Valid() && k < |nodes| && pf == nodes[k]
      ensures due == Due(es[k], a)
    {
      assert pf.Get() == es[k];
      if Abs(a.now - pf.mstime) > ResendTime(pf.cntresend, a.base) {
        return true;
      }
      due := pf.cntresend == 0 && (pf.seqno + a.delta < a.maxack || pf.numchklost > 1);
    }

    // One turn of the loop in resend: a due frame is sent, _cntresend++, new time stamp.
    method SendIfDue(pf: Node, ghost k: nat, a: ResendArgs, sent: seq<seq<byte>>) returns (sent': seq<seq<byte>>, next: Node?)
      requires Valid() && k < |nodes| && pf == nodes[k]
      modifies this`es, this`numresend, pf`cntresend, pf`mstime
      ensures Valid() && nodes == old(nodes) && next == At(nodes, k + 1)
      ensures es == if Due(old(es)[k], a) then old(es)[k := Resent(old(es)[k], a.now)] else old(es)
      ensures sent' == if Due(old(es)[k], a) then sent + [old(es)[k].frm] else sent
    {
      hide Chained, Distinct, Increasing, Due;
      var due := DueNow(pf, k, a);
      assert pf.Get() == es[k];
      sent' := sent;
      if due {
        sent' := sent + [pf.frm];
        Restamp(pf, k, a.now);
      }
      next := NextOf(pf, k);
    }

    method Restamp(pf: Node, ghost k: nat, now: int)
      requires Valid() && k < |nodes| && pf == nodes[k]
      modifies this`es, this`numresend, pf`cntresend, pf`mstime
      ensures Valid() && nodes == old(nodes) && es == old(es)[k := Resent(old(es)[k], now)]
    {
      hide Chained, Increasing;
      assert pf.Get() == es[k];
      ghost var e := Resent(es[k], now);
      IncreasingUpdated(es, k, e);
      pf.cntresend := pf.cntresend + 1;
      pf.mstime := now;
      numresend := numresend + 1;
      es := es[k := e];
    }

    lemma IncreasingUpdated(s: seq<Entry>, k: nat, e: Entry)
      requires Increasing(s) && k < |s| && e.seqno == s[k].seqno
      ensures Increasing(s[k := e])
    {
    }

    // The state of resend's loop at node k: sent so far, and what is still to come.
    ghost predicate ResendLoop(es0: seq<Entry>, k: nat, a: ResendArgs, budget: nat, sent: seq<seq<byte>>, fp: set<Node>, pf: Node?)
      reads this, nodes
    {
      && Valid() && Within(nodes, fp) && k <= |nodes| == |es0| && pf == At(nodes, k) && |sent| <= budget
      && ResendPass(es, k, a, budget, sent) == ResendPass(es0, 0, a, budget, [])
    }

    method ResendTurn(pf: Node, ghost es0: seq<Entry>, ghost k: nat, a: ResendArgs, ghost budget: nat, sent: seq<seq<byte>>, ghost fp: set<Node>)
      returns (sent': seq<seq<byte>>, next: Node?)
      requires ResendLoop(es0, k, a, budget, sent, fp, pf) && |sent| < budget
      modifies this`es, this`numresend, fp`cntresend, fp`mstime
      ensures ResendLoop(es0, k + 1, a, budget, sent', fp, next) && nodes == old(nodes) && k < |es0|
    {
      assert pf.Get() == es[k] && pf in fp;
      hide Chained, Distinct, Increasing, Within, Due, Resent;
      sent', next := SendIfDue(pf, k, a, sent);
    }

    lemma ResendDone(es0: seq<Entry>, k: nat, a: ResendArgs, budget: nat, sent: seq<seq<byte>>, fp: set<Node>, pf: Node?)
      requires ResendLoop(es0, k, a, budget, sent, fp, pf) && (pf == null || |sent| >= budget)
      ensures Valid() && (es, sent) == ResendPass(es0, 0, a, budget, [])
    {
    }

    method ResendAll(a: ResendArgs, maxsndfrms: nat, ghost fp: set<Node>) returns (sent: seq<seq<byte>>)
      requires Valid() && Within(nodes, fp)
      modifies this`es, this`numresend, fp`cntresend, fp`mstime
      ensures Valid() && nodes == old(nodes)
      ensures (es, sent) == ResendPass(old(es), 0, a, maxsndfrms, [])
    {
      sent := [];
      var pf := head;
      ghost var es0, k := es, 0;
      assert ResendLoop(es0, k, a, maxsndfrms, sent, fp, pf);
      ghost var ns := nodes;
      hide ResendLoop, Valid, Within, ResendPass;
      while pf != null && |sent| < maxsndfrms
        invariant ResendLoop(es0, k, a, maxsndfrms, sent, fp, pf) && nodes == ns
        decreases |es0| - k
      {
        sent, pf := ResendTurn(pf, es0, k, a, maxsndfrms, sent, fp);
        k := k + 1;
      }
      ResendDone(es0, k, a, maxsndfrms, sent, fp, pf);
    }

    // frmlist_send::resend: at most maxsndfrms frames that are due, oldest first.
    method Resend(a: ResendArgs, maxsndfrms: nat) returns (sent: seq<seq<byte>>)
      requires Valid()
      modifies this`es, this`numresend, nodes`cntresend, nodes`mstime
      ensures Valid() && nodes == old(nodes)
      ensures (es, sent) == ResendPass(old(es), 0, a, maxsndfrms, [])
    {
      sent := ResendAll(a, maxsndfrms, set n | n in nodes);
    }

    // frmlist_send::acked
    method Acked(seqno: nat) returns (b: bool)
      requires Valid()
      ensures b == (es == [] || es[0].seqno > seqno)
    {
      assert head != null ==> head.Get() == es[0];
      b := head == null || head.seqno > seqno;
    }

    // frmlist_recv::getrecvacks
    method GetRecvAcks(nxtrcvno: nat) returns (seqnos: seq<nat>)
      requires Valid()
      ensures seqnos == RecvAcks(es, nxtrcvno)
    {
      hide Distinct, Increasing;
      seqnos := [];
      var pf := head;
      ghost var k := 0;
      while pf != null
        invariant 0 <= k <= |nodes| && pf == At(nodes, k) && seqnos == RecvAcks(es[..k], nxtrcvno)
        decreases |nodes| - k
      {
        assert pf.Get() == es[k];
        assert es[..k + 1] == es[..k] + [es[k]];
        RecvAcksAppend(es[..k], es[k], nxtrcvno);
        if pf.seqno >= nxtrcvno {
          seqnos := seqnos + [pf.seqno];
        }
        pf := pf.next;
        k := k + 1;
      }
      assert es[..k] == es;
    }
  }
}
