/** What the frame lists compute, as functions on sequences of entries (ec_ucpx.h frmlist,
    frmlist_send, frmlist_recv). */
module UcpFrames {
  import opened Bytes

  // The fields of t_node that are not links.
  datatype Entry = Entry(seqno: nat, cntresend: nat, numchklost: nat, mstime: int, frm: seq<byte>)

  ghost predicate Increasing(es: seq<Entry>) {
    forall i, j :: 0 <= i < j < |es| ==> es[i].seqno < es[j].seqno
  }

  ghost predicate Has(es: seq<Entry>, n: nat) {
    exists i :: 0 <= i < |es| && es[i].seqno == n
  }

  // ---- add: insertion into a strictly increasing list, an entry already there stays.

  function Insert(es: seq<Entry>, e: Entry): seq<Entry> {
    if es == [] then [e]
    else if es[0].seqno == e.seqno then es
    else if es[0].seqno > e.seqno then [e] + es
    else [es[0]] + Insert(es[1..], e)
  }

  function Splice(es: seq<Entry>, e: Entry, k: nat): (r: seq<Entry>)
    requires k <= |es|
    ensures |r| == |es| + 1 && r[k] == e
    ensures forall i :: 0 <= i < k ==> r[i] == es[i]
    ensures forall i :: k <= i < |es| ==> r[i + 1] == es[i]
  {
    es[..k] + [e] + es[k..]
  }

  // The list after Insert is the old list with e spliced in at the one place that keeps the order.
  lemma {:induction false} InsertAt(es: seq<Entry>, e: Entry, k: nat)
    requires k <= |es|
    requires forall i :: 0 <= i < k ==> es[i].seqno < e.seqno
    requires k < |es| ==> e.seqno <= es[k].seqno
    ensures Insert(es, e) == if k < |es| && es[k].seqno == e.seqno then es else Splice(es, e, k)
  {
    hide Splice;
    if k == 0 {
      SpliceFront(es, e);
    } else {
      InsertAt(es[1..], e, k - 1);
      SpliceCons(es[0], es[1..], e, k - 1);
      assert [es[0]] + es[1..] == es;
    }
  }

  lemma SpliceFront(es: seq<Entry>, e: Entry)
    ensures Splice(es, e, 0) == [e] + es
  {
  }

  lemma SpliceCons(x: Entry, t: seq<Entry>, e: Entry, k: nat)
    requires k <= |t|
    ensures [x] + Splice(t, e, k) == Splice([x] + t, e, k + 1)
  {
    assert ([x] + t)[..k + 1] == [x] + t[..k] && ([x] + t)[k + 1..] == t[k..];
  }

  lemma InsertAtEnd(es: seq<Entry>, e: Entry)
    requires forall i :: 0 <= i < |es| ==> es[i].seqno < e.seqno
    ensures Insert(es, e) == es + [e]
  {
    InsertAt(es, e, |es|);
  }

  lemma SplitPoint(es: seq<Entry>, n: nat) returns (k: nat)
    requires Increasing(es)
    ensures k <= |es|
    ensures forall i :: 0 <= i < k ==> es[i].seqno < n
    ensures forall i :: k <= i < |es| ==> n <= es[i].seqno
  {
    k := 0;
    while k < |es| && es[k].seqno < n
      invariant k <= |es|
      invariant forall i :: 0 <= i < k ==> es[i].seqno < n
    {
      k := k + 1;
    }
  }

  lemma SpliceKeys(es: seq<Entry>, e: Entry, k: nat)
    requires k <= |es|
    ensures forall n :: Has(Splice(es, e, k), n) <==> n == e.seqno || Has(es, n)
  {
    var r := Splice(es, e, k);
    forall n ensures Has(r, n) <==> n == e.seqno || Has(es, n) {
      if Has(es, n) {
        var i :| 0 <= i < |es| && es[i].seqno == n;
        assert r[if i < k then i else i + 1] == es[i];
      }
      if Has(r, n) {
        var i :| 0 <= i < |r| && r[i].seqno == n;
        if i < k { assert es[i].seqno == n; } else if i > k { assert es[i - 1].seqno == n; }
      }
    }
  }

  lemma SpliceMembers(es: seq<Entry>, e: Entry, k: nat)
    requires k <= |es|
    ensures forall x :: x in Splice(es, e, k) <==> x == e || x in es
  {
    forall x ensures x in Splice(es, e, k) <==> x == e || x in es {
      assert x in es <==> x in es[..k] || x in es[k..] by { assert es == es[..k] + es[k..]; }
    }
  }

  lemma IncreasingAfterSplice(es: seq<Entry>, e: Entry, k: nat)
    requires Increasing(es) && k <= |es|
    requires forall i :: 0 <= i < k ==> es[i].seqno < e.seqno
    requires forall i :: k <= i < |es| ==> e.seqno < es[i].seqno
    ensures Increasing(Splice(es, e, k))
  {
  }

  // Insert is set insertion: order kept, exactly one key more unless it was there, nothing lost.
  lemma InsertIsSetInsertion(es: seq<Entry>, e: Entry)
    requires Increasing(es)
    ensures Increasing(Insert(es, e))
    ensures forall n :: Has(Insert(es, e), n) <==> n == e.seqno || Has(es, n)
    ensures |Insert(es, e)| == |es| + if Has(es, e.seqno) then 0 else 1
    ensures forall x :: x in Insert(es, e) <==> x in es || (x == e && !Has(es, e.seqno))
  {
    var k := SplitPoint(es, e.seqno);
    InsertAt(es, e, k);
    if k < |es| && es[k].seqno == e.seqno {
      assert Has(es, e.seqno);
    } else {
      assert !Has(es, e.seqno);
      hide Has, Increasing, Insert, Splice;
      IncreasingAfterSplice(es, e, k);
      SpliceKeys(es, e, k);
      SpliceMembers(es, e, k);
    }
  }

  // ---- ackread: the leading entries numbered no, no+1, no+2, ...

  function RunLength(es: seq<Entry>, no: nat): (n: nat)
    ensures n <= |es|
    ensures forall i :: 0 <= i < n ==> es[i].seqno == no + i
    ensures n < |es| ==> es[n].seqno != no + n
  {
    if es == [] || es[0].seqno != no then 0 else 1 + RunLength(es[1..], no + 1)
  }

  // ---- qsearch_: linear below 12 entries, binary search above.

  function BinSearch(v: nat, nos: seq<nat>, lo: int, hi: int): bool
    requires 0 <= lo <= hi + 1 <= |nos|
    decreases hi - lo + 1
  {
    if lo > hi then false else
    var m := (lo + hi) / 2;
    if v == nos[m] then true
    else if nos[m] < v then BinSearch(v, nos, m + 1, hi)
    else BinSearch(v, nos, lo, m - 1)
  }

  function QSearch(v: nat, nos: seq<nat>): bool {
    if |nos| < 12 then v in nos else BinSearch(v, nos, 0, |nos| - 1)
  }

  ghost predicate Ascending(nos: seq<nat>) {
    forall i, j :: 0 <= i < j < |nos| ==> nos[i] <= nos[j]
  }

  lemma {:induction false} BinSearchSound(v: nat, nos: seq<nat>, lo: int, hi: int)
    requires 0 <= lo <= hi + 1 <= |nos|
    requires BinSearch(v, nos, lo, hi)
    ensures v in nos
    decreases hi - lo + 1
  {
    var m := (lo + hi) / 2;
    if nos[m] < v {
      BinSearchSound(v, nos, m + 1, hi);
    } else if v < nos[m] {
      BinSearchSound(v, nos, lo, m - 1);
    }
  }

  lemma {:induction false} BinSearchComplete(nos: seq<nat>, i: nat, lo: int, hi: int)
    requires 0 <= lo <= i <= hi < |nos| && Ascending(nos)
    ensures BinSearch(nos[i], nos, lo, hi)
    decreases hi - lo + 1
  {
    var m := (lo + hi) / 2;
    if nos[m] < nos[i] {
      BinSearchComplete(nos, i, m + 1, hi);
    } else if nos[i] < nos[m] {
      BinSearchComplete(nos, i, lo, m - 1);
    }
  }

  // A hit is always a member; on an ascending array every member is hit.
  lemma QSearchFinds(v: nat, nos: seq<nat>)
    ensures QSearch(v, nos) ==> v in nos
    ensures Ascending(nos) && v in nos ==> QSearch(v, nos)
  {
    if |nos| >= 12 {
      if BinSearch(v, nos, 0, |nos| - 1) {
        BinSearchSound(v, nos, 0, |nos| - 1);
      }
      if Ascending(nos) && v in nos {
        var i :| 0 <= i < |nos| && nos[i] == v;
        BinSearchComplete(nos, i, 0, |nos| - 1);
      }
    }
  }

  // ---- ack_del: drop what the ACK confirms, count a miss on what it skips.

  predicate Confirmed(n: nat, upto: nat, nos: seq<nat>) {
    n <= upto || QSearch(n, nos)
  }

  function Skipped(e: Entry, nos: seq<nat>): Entry {
    if nos != [] && e.seqno < nos[|nos| - 1] then e.(numchklost := (e.numchklost + 1) % 0x1_0000) else e
  }

  function AckDel(es: seq<Entry>, upto: nat, nos: seq<nat>): (r: seq<Entry>)
    ensures |r| <= |es|
  {
    if es == [] then []
    else if Confirmed(es[0].seqno, upto, nos) then AckDel(es[1..], upto, nos)
    else [Skipped(es[0], nos)] + AckDel(es[1..], upto, nos)
  }

  function Max(a: nat, b: nat): nat { if a < b then b else a }

  // _ackmaxsndno after the ACK: the largest number confirmed so far.
  function AckMax(es: seq<Entry>, upto: nat, nos: seq<nat>, m: nat): nat {
    if es == [] then m
    else if Confirmed(es[0].seqno, upto, nos) then AckMax(es[1..], upto, nos, Max(m, es[0].seqno))
    else AckMax(es[1..], upto, nos, m)
  }

  lemma AckDelAppend(es: seq<Entry>, e: Entry, upto: nat, nos: seq<nat>)
    ensures AckDel(es + [e], upto, nos)
         == AckDel(es, upto, nos) + if Confirmed(e.seqno, upto, nos) then [] else [Skipped(e, nos)]
  {
    if es == [] {
      assert es + [e] == [e];
    } else {
      assert (es + [e])[1..] == es[1..] + [e];
      AckDelAppend(es[1..], e, upto, nos);
    }
  }

  lemma AckMaxAppend(es: seq<Entry>, e: Entry, upto: nat, nos: seq<nat>, m: nat)
    ensures AckMax(es + [e], upto, nos, m)
         == if Confirmed(e.seqno, upto, nos) then Max(AckMax(es, upto, nos, m), e.seqno) else AckMax(es, upto, nos, m)
  {
    if es == [] {
      assert es + [e] == [e];
    } else {
      assert (es + [e])[1..] == es[1..] + [e];
      AckMaxAppend(es[1..], e, upto, nos, if Confirmed(es[0].seqno, upto, nos) then Max(m, es[0].seqno) else m);
    }
  }

  // An ACK removes exactly the confirmed numbers and keeps the frames of the others.
  lemma {:induction false} AckDelRemoves(es: seq<Entry>, upto: nat, nos: seq<nat>)
    requires Increasing(es)
    ensures Increasing(AckDel(es, upto, nos))
    ensures forall n :: Has(AckDel(es, upto, nos), n) <==> Has(es, n) && !Confirmed(n, upto, nos)
  {
    if es != [] {
      AckDelRemoves(es[1..], upto, nos);
      var r, t := AckDel(es, upto, nos), AckDel(es[1..], upto, nos);
      HasCons(es);
      if !Confirmed(es[0].seqno, upto, nos) {
        assert r[1..] == t;
        HasCons(r);
        HeadBelow(es);
        assert forall i :: 0 <= i < |t| ==> Has(t, t[i].seqno);
      } else {
        HeadBelow(es);
      }
    }
  }

  lemma HeadBelow(es: seq<Entry>)
    requires es != [] && Increasing(es)
    ensures forall n :: Has(es[1..], n) ==> es[0].seqno < n
  {
    forall n | Has(es[1..], n) ensures es[0].seqno < n {
      var i :| 0 <= i < |es[1..]| && es[1..][i].seqno == n;
      assert es[i + 1].seqno == n;
    }
  }

  // What stays keeps its frame.
  lemma {:induction false} AckDelKeepsFrames(es: seq<Entry>, upto: nat, nos: seq<nat>, x: Entry)
    requires x in AckDel(es, upto, nos)
    ensures exists y :: y in es && y.seqno == x.seqno && y.frm == x.frm
  {
    if es != [] {
      if x in AckDel(es[1..], upto, nos) {
        AckDelKeepsFrames(es[1..], upto, nos, x);
        var y :| y in es[1..] && y.seqno == x.seqno && y.frm == x.frm;
        assert y in es;
      } else {
        assert x == Skipped(es[0], nos) && es[0] in es;
      }
    }
  }

  lemma HasCons(es: seq<Entry>)
    requires es != []
    ensures forall n :: Has(es, n) <==> n == es[0].seqno || Has(es[1..], n)
  {
    forall n | Has(es, n) ensures n == es[0].seqno || Has(es[1..], n) {
      var i :| 0 <= i < |es| && es[i].seqno == n;
      if i > 0 { assert es[1..][i - 1].seqno == n; }
    }
    forall n | Has(es[1..], n) ensures Has(es, n) {
      var i :| 0 <= i < |es[1..]| && es[1..][i].seqno == n;
      assert es[i + 1].seqno == n;
    }
  }

  // ---- resend

  function Abs(x: int): nat { if x < 0 then -x else x }

  function ResendTime(cnt: nat, base: int): int
    decreases cnt
  {
    if cnt == 0 then base else 2 * ResendTime(cnt - 1, base)
  }

  datatype ResendArgs = ResendArgs(now: int, maxack: nat, delta: nat, base: int)

  predicate TimeOver(e: Entry, a: ResendArgs) {
    Abs(a.now - e.mstime) > ResendTime(e.cntresend, a.base)
  }

  predicate Overtaken(e: Entry, a: ResendArgs) {
    e.cntresend == 0 && (e.seqno + a.delta < a.maxack || e.numchklost > 1)
  }

  predicate Due(e: Entry, a: ResendArgs) {
    TimeOver(e, a) || Overtaken(e, a)
  }

  function Resent(e: Entry, now: int): Entry {
    e.(cntresend := e.cntresend + 1, mstime := now)
  }

  // A resend pass from entry k on, having sent `sent` of at most budget frames: the list and the
  // frames sent when it ends.
  function ResendPass(es: seq<Entry>, k: nat, a: ResendArgs, budget: nat, sent: seq<seq<byte>>): (seq<Entry>, seq<seq<byte>>)
    decreases |es| - k
  {
    if k >= |es| || |sent| >= budget then (es, sent)
    else if Due(es[k], a) then ResendPass(es[k := Resent(es[k], a.now)], k + 1, a, budget, sent + [es[k].frm])
    else ResendPass(es, k + 1, a, budget, sent)
  }

  // The frame of an entry that was due, from k on.
  ghost predicate DueFrame(f: seq<byte>, es: seq<Entry>, k: nat, a: ResendArgs) {
    exists j :: k <= j < |es| && Due(es[j], a) && f == es[j].frm
  }

  // A pass keeps every number and frame, restamps only due entries, and sends only frames of the list,
  // within the budget.
  lemma {:induction false} ResendPassKeeps(es: seq<Entry>, k: nat, a: ResendArgs, budget: nat, sent: seq<seq<byte>>)
    ensures var (r, f) := ResendPass(es, k, a, budget, sent);
      && |r| == |es|
      && (forall i :: 0 <= i < |es| ==> r[i] == es[i] || (k <= i && Due(es[i], a) && r[i] == Resent(es[i], a.now)))
      && sent <= f && (|f| <= budget || f == sent)
      && (forall i :: |sent| <= i < |f| ==> DueFrame(f[i], es, k, a))
    decreases |es| - k
  {
    if !(k >= |es| || |sent| >= budget) {
      var (es', sent') := if Due(es[k], a) then (es[k := Resent(es[k], a.now)], sent + [es[k].frm]) else (es, sent);
      ResendPassKeeps(es', k + 1, a, budget, sent');
      var (r, f) := ResendPass(es', k + 1, a, budget, sent');
      assert ResendPass(es, k, a, budget, sent) == (r, f);
      assert forall j :: k < j < |es| ==> es'[j] == es[j];
      forall i | |sent| <= i < |f| ensures DueFrame(f[i], es, k, a) {
        if i < |sent'| {
          assert f[i] == sent'[i] == es[k].frm;
        } else {
          assert DueFrame(f[i], es', k + 1, a);
          var j :| k + 1 <= j < |es'| && Due(es'[j], a) && f[i] == es'[j].frm;
          assert es'[j] == es[j];
        }
      }
    }
  }

  // getrecvacks: the numbers of the reorder list from nxt on.
  function RecvAcks(es: seq<Entry>, nxt: nat): (nos: seq<nat>)
    ensures forall n :: n in nos ==> Has(es, n)
  {
    if es == [] then [] else
    var t := RecvAcks(es[1..], nxt);
    HasCons(es);
    if es[0].seqno >= nxt then [es[0].seqno] + t else t
  }

  lemma RecvAcksAppend(es: seq<Entry>, e: Entry, nxt: nat)
    ensures RecvAcks(es + [e], nxt) == RecvAcks(es, nxt) + if e.seqno >= nxt then [e.seqno] else []
  {
    if es == [] {
      assert es + [e] == [e];
    } else {
      assert (es + [e])[1..] == es[1..] + [e];
      RecvAcksAppend(es[1..], e, nxt);
    }
  }
}
