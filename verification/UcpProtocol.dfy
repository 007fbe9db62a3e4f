/** Two ucpsocket endpoints over a network that may drop, duplicate, reorder and delay: the step
    system, its invariant, and what every run guarantees. */
module UcpProtocol {
  import opened Wrappers
  import opened Bytes
  import opened UcpFrame
  import opened UcpFrames
  import opened UcpSpec

  // One endpoint, with the history of what its application gave to sendbytes (cut into chunks) and
  // what do_datafrm handed up to it.
  datatype Peer = Peer(sock: Sock, chunks: seq<seq<byte>>, delivered: seq<seq<byte>>)

  datatype Action =
    | Send(data: seq<byte>, clock: nat -> int)
    | ResendAct(now: int, delta: nat, base: int, budget: nat)
    | AckAct
    | Recv(f: seq<byte>)

  function NewPeer(ssid: bv32): Peer { Peer(NewSock(ssid), [], []) }

  function Act(crc: Crc, p: Peer, a: Action): (Peer, seq<seq<byte>>)
    requires p.sock.nxtrcv > 0
  {
    match a
    case Send(data, clock) =>
      var (s, out) := SendBytes(crc, p.sock, data, clock);
      (p.(sock := s, chunks := p.chunks + Chunks(data)), out)
    case ResendAct(now, delta, base, budget) =>
      var (s, out) := Resend(p.sock, now, delta, base, budget);
      (p.(sock := s), out)
    case AckAct =>
      var (s, out) := AckEx(crc, p.sock);
      (p.(sock := s), out)
    case Recv(f) =>
      var (s, up, ok) := OnRecv(crc, p.sock, f);
      (p.(sock := s, delivered := p.delivered + up), [])
  }

  // A frame can be received only if it was sent; nothing else restricts the network. Sequence numbers
  // must not run out of 64 bits.
  predicate Enabled(p: Peer, a: Action, inbox: set<seq<byte>>) {
    match a
    case Send(data, _) => p.sock.nxtsnd + |Chunks(data)| <= SEQ_END
    case Recv(f) => f in inbox
    case _ => true
  }

  // toA and toB hold every frame ever sent towards that side: a frame may be delivered from there at
  // any later time, any number of times, in any order, or never.
  datatype Sys = Sys(a: Peer, b: Peer, toA: set<seq<byte>>, toB: set<seq<byte>>)

  datatype Event = Event(atA: bool, act: Action)

  function NewSys(ssid: bv32): Sys { Sys(NewPeer(ssid), NewPeer(ssid), {}, {}) }

  function Elems(fs: seq<seq<byte>>): set<seq<byte>> { set f | f in fs }

  predicate CanStep(s: Sys, e: Event) {
    && s.a.sock.nxtrcv > 0 && s.b.sock.nxtrcv > 0
    && if e.atA then Enabled(s.a, e.act, s.toA) else Enabled(s.b, e.act, s.toB)
  }

  function Step(crc: Crc, s: Sys, e: Event): Sys
    requires CanStep(s, e)
  {
    if e.atA then
      var (p, out) := Act(crc, s.a, e.act);
      s.(a := p, toB := s.toB + Elems(out))
    else
      var (p, out) := Act(crc, s.b, e.act);
      s.(b := p, toA := s.toA + Elems(out))
  }

  // The other side's view of the same system.
  function Mirror(s: Sys): Sys { Sys(s.b, s.a, s.toB, s.toA) }

  // ---- The invariant, for the direction from sender x to receiver y.

  // f carries chunk n of the history.
  ghost predicate Carries(crc: Crc, ssid: bv32, chunks: seq<seq<byte>>, n: nat, f: seq<byte>) {
    && 1 <= n <= |chunks|
    && match Parse(crc, f)
       case None => false
       case Some(p) => p.ussid == ssid && p.seqno == n && p.cmd == DAT && p.data == chunks[n - 1]
  }

  ghost predicate IsData(crc: Crc, ssid: bv32, chunks: seq<seq<byte>>, f: seq<byte>) {
    Parse(crc, f).Some? && Carries(crc, ssid, chunks, Parse(crc, f).value.seqno, f)
  }

  ghost predicate Received(s: Sock, n: nat) {
    n < s.nxtrcv || Has(s.rbuf, n)
  }

  ghost predicate DataOrAck(crc: Crc, ssid: bv32, chunks: seq<seq<byte>>, f: seq<byte>) {
    match Parse(crc, f)
    case None => false
    case Some(p) => p.ussid == ssid && (p.cmd == ACK || (p.cmd == DAT && Carries(crc, ssid, chunks, p.seqno, f)))
  }

  // An ACK confirms only what its sender has.
  ghost predicate HonestAck(crc: Crc, s: Sock, f: seq<byte>) {
    match Parse(crc, f)
    case None => true
    case Some(p) => p.cmd == ACK ==> p.seqno < s.nxtrcv && forall n :: n in DecodeNos(p.data) ==> Received(s, n)
  }

  ghost predicate Entries(crc: Crc, ssid: bv32, chunks: seq<seq<byte>>, es: seq<Entry>) {
    Increasing(es) && forall i :: 0 <= i < |es| ==> Carries(crc, ssid, chunks, es[i].seqno, es[i].frm)
  }

  ghost predicate SenderInv(crc: Crc, x: Peer) {
    && x.sock.nxtsnd == |x.chunks| + 1 <= SEQ_END
    && (forall i :: 0 <= i < |x.chunks| ==> |x.chunks[i]| <= CONTENT)
    && Entries(crc, x.sock.ssid, x.chunks, x.sock.sbuf)
  }

  ghost predicate ReceiverInv(crc: Crc, chunks: seq<seq<byte>>, y: Peer) {
    && 1 <= y.sock.nxtrcv <= |chunks| + 1
    && Entries(crc, y.sock.ssid, chunks, y.sock.rbuf)
    && (forall i :: 0 <= i < |y.sock.rbuf| ==> y.sock.nxtrcv < y.sock.rbuf[i].seqno)
    && |y.delivered| == y.sock.nxtrcv - 1
    && forall i :: 0 <= i < |y.delivered| ==> Carries(crc, y.sock.ssid, chunks, i + 1, y.delivered[i])
  }

  // Nothing sent is lost: still in the send list, or with the receiver.
  ghost predicate NoLoss(x: Sock, y: Sock) {
    forall n :: 1 <= n < x.nxtsnd ==> Has(x.sbuf, n) || Received(y, n)
  }

  ghost predicate DirInv(crc: Crc, x: Peer, y: Peer, fwd: set<seq<byte>>, back: set<seq<byte>>) {
    && x.sock.ssid == y.sock.ssid
    && SenderInv(crc, x) && ReceiverInv(crc, x.chunks, y) && NoLoss(x.sock, y.sock)
    && (forall f :: f in fwd ==> DataOrAck(crc, x.sock.ssid, x.chunks, f))
    && (forall f :: f in back ==> HonestAck(crc, y.sock, f))
  }

  ghost predicate Inv(crc: Crc, s: Sys) {
    DirInv(crc, s.a, s.b, s.toB, s.toA) && DirInv(crc, s.b, s.a, s.toA, s.toB)
  }

  // ---- Sending

  lemma DataFrameCarries(crc: Crc, ssid: bv32, chunks: seq<seq<byte>>, n: nat)
    requires 1 <= n <= |chunks| && n < SEQ_END && |chunks[n - 1]| <= CONTENT
    ensures Carries(crc, ssid, chunks, n, DataFrame(crc, ssid, n, chunks[n - 1]))
  {
    hide Parse, ParseHead, Encode;
    ParseEncode(crc, Pkg(ssid, n, DAT, 0, chunks[n - 1]));
  }

  lemma MoreChunks(crc: Crc, ssid: bv32, chunks: seq<seq<byte>>, more: seq<seq<byte>>)
    ensures forall n, f :: Carries(crc, ssid, chunks, n, f) ==> Carries(crc, ssid, chunks + more, n, f)
    ensures forall f :: DataOrAck(crc, ssid, chunks, f) ==> DataOrAck(crc, ssid, chunks + more, f)
  {
    hide Parse, ParseHead, Encode;
  }

  lemma HasAppend(es: seq<Entry>, e: Entry)
    ensures forall n :: Has(es + [e], n) <==> Has(es, n) || n == e.seqno
  {
    hide Parse, ParseHead, Encode;
    forall n ensures Has(es + [e], n) <==> Has(es, n) || n == e.seqno {
      var r := es + [e];
      if Has(r, n) {
        var i :| 0 <= i < |r| && r[i].seqno == n;
        assert i < |es| ==> es[i].seqno == n;
      }
      if Has(es, n) {
        var i :| 0 <= i < |es| && es[i].seqno == n;
        assert r[i].seqno == n;
      }
      assert r[|es|] == e;
    }
  }

  // One turn of the send loop keeps the sender's invariant, and the new number is in the send list.
  lemma SendOneKeeps(crc: Crc, x: Peer, c: seq<byte>, t: int)
    requires SenderInv(crc, x) && x.sock.nxtsnd < SEQ_END && |c| <= CONTENT
    ensures var s := x.sock; var f := DataFrame(crc, s.ssid, s.nxtsnd, c);
            var x' := Peer(s.(nxtsnd := s.nxtsnd + 1, sbuf := s.sbuf + [Entry(s.nxtsnd, 0, 0, t, f)]), x.chunks + [c], x.delivered);
            && SenderInv(crc, x') && Carries(crc, s.ssid, x'.chunks, s.nxtsnd, f)
            && (forall n :: Has(s.sbuf, n) || n == s.nxtsnd ==> Has(x'.sock.sbuf, n))
  {
    hide Parse, ParseHead, Encode;
    var s := x.sock;
    var cs := x.chunks + [c];
    assert cs[s.nxtsnd - 1] == c;
    DataFrameCarries(crc, s.ssid, cs, s.nxtsnd);
    MoreChunks(crc, s.ssid, x.chunks, [c]);
    HasAppend(s.sbuf, Entry(s.nxtsnd, 0, 0, t, DataFrame(crc, s.ssid, s.nxtsnd, c)));
  }

  // Every frame of out carries some chunk.
  ghost predicate AllData(crc: Crc, ssid: bv32, chunks: seq<seq<byte>>, out: seq<seq<byte>>) {
    forall i :: 0 <= i < |out| ==> IsData(crc, ssid, chunks, out[i])
  }

  lemma AllDataMore(crc: Crc, ssid: bv32, chunks: seq<seq<byte>>, c: seq<byte>, out: seq<seq<byte>>, f: seq<byte>, n: nat)
    requires AllData(crc, ssid, chunks, out) && Carries(crc, ssid, chunks + [c], n, f)
    ensures AllData(crc, ssid, chunks + [c], out + [f])
  {
    hide Parse, ParseHead, Encode;
  }

  // x has queued the chunks cs and become s, having emitted out.
  ghost predicate Queued(crc: Crc, x: Peer, cs: seq<seq<byte>>, s: Sock, out: seq<seq<byte>>) {
    var x' := Peer(s, x.chunks + cs, x.delivered);
    && SenderInv(crc, x') && AllData(crc, s.ssid, x'.chunks, out)
    && s == x.sock.(nxtsnd := x.sock.nxtsnd + |cs|, sbuf := s.sbuf)
    && (forall n: nat :: Has(x.sock.sbuf, n) || x.sock.nxtsnd <= n < s.nxtsnd ==> Has(s.sbuf, n))
  }

  lemma QueuedMore(crc: Crc, x: Peer, c: seq<byte>, x1: Peer, cs: seq<seq<byte>>, s: Sock, out: seq<seq<byte>>)
    requires x1.chunks == x.chunks + [c] && x1.delivered == x.delivered
    requires x1.sock == x.sock.(nxtsnd := x.sock.nxtsnd + 1, sbuf := x1.sock.sbuf)
    requires forall n :: Has(x.sock.sbuf, n) || n == x.sock.nxtsnd ==> Has(x1.sock.sbuf, n)
    requires Queued(crc, x1, cs, s, out)
    ensures Queued(crc, x, [c] + cs, s, out)
  {
    hide Parse, ParseHead, Encode;
    hide SenderInv, AllData, Has;
    assert x1.chunks + cs == x.chunks + ([c] + cs);
  }

  lemma {:induction false} SendChunksKeeps(crc: Crc, x: Peer, cs: seq<seq<byte>>, clock: nat -> int, out: seq<seq<byte>>)
    requires SenderInv(crc, x) && x.sock.nxtsnd + |cs| <= SEQ_END
    requires forall i :: 0 <= i < |cs| ==> |cs[i]| <= CONTENT
    requires AllData(crc, x.sock.ssid, x.chunks, out)
    ensures Queued(crc, x, cs, SendChunks(crc, x.sock, cs, clock, out).0, SendChunks(crc, x.sock, cs, clock, out).1)
    decreases |cs|
  {
    hide Parse, ParseHead, Encode;
    if cs == [] {
      assert x.chunks + cs == x.chunks;
    } else {
      var s := x.sock;
      var f := DataFrame(crc, s.ssid, s.nxtsnd, cs[0]);
      var x1 := Peer(s.(nxtsnd := s.nxtsnd + 1, sbuf := s.sbuf + [Entry(s.nxtsnd, 0, 0, clock(s.nxtsnd), f)]), x.chunks + [cs[0]], x.delivered);
      SendOneKeeps(crc, x, cs[0], clock(s.nxtsnd));
      AllDataMore(crc, s.ssid, x.chunks, cs[0], out, f, s.nxtsnd);
      hide SenderInv, Has, AllData, Queued;
      SendChunksKeeps(crc, x1, cs[1..], clock, out + [f]);
      var (s', out') := SendChunks(crc, x1.sock, cs[1..], clock, out + [f]);
      QueuedMore(crc, x, cs[0], x1, cs[1..], s', out');
      assert [cs[0]] + cs[1..] == cs;
    }
  }

  // ---- Receiving data

  // Taking the leading run off a list that starts at or behind nxt leaves a list strictly behind it.
  lemma RunTakenBehind(es: seq<Entry>, nxt: nat)
    requires Increasing(es) && forall i :: 0 <= i < |es| ==> nxt <= es[i].seqno
    ensures var n := RunLength(es, nxt);
            Increasing(es[n..]) && forall i :: 0 <= i < |es| - n ==> nxt + n < es[n..][i].seqno
  {
    var n := RunLength(es, nxt);
    hide RunLength;
    if n < |es| {
      assert n > 0 ==> es[n - 1].seqno == nxt + (n - 1);
      assert nxt + n < es[n].seqno;
      forall i | 0 <= i < |es| - n ensures nxt + n < es[n..][i].seqno {
        assert i > 0 ==> es[n].seqno < es[n + i].seqno;
      }
    }
  }

  // No number is lost by it.
  lemma RunTakenKeeps(es: seq<Entry>, nxt: nat)
    ensures var n := RunLength(es, nxt); forall m: nat :: m < nxt || Has(es, m) ==> m < nxt + n || Has(es[n..], m)
  {
    var n := RunLength(es, nxt);
    hide RunLength;
    forall m: nat | Has(es, m) && m >= nxt + n ensures Has(es[n..], m) {
      var i :| 0 <= i < |es| && es[i].seqno == m;
      assert es[n..][i - n].seqno == m;
    }
  }

  // The new list of the receiver before the run is taken: every entry still carries its chunk.
  lemma InsertCarries(crc: Crc, ssid: bv32, chunks: seq<seq<byte>>, es: seq<Entry>, n: nat, f: seq<byte>)
    requires Entries(crc, ssid, chunks, es) && Carries(crc, ssid, chunks, n, f)
    ensures Entries(crc, ssid, chunks, Insert(es, Entry(n, 0, 0, 0, f)))
  {
    hide Parse, ParseHead, Encode;
    hide Carries;
    var e := Entry(n, 0, 0, 0, f);
    InsertIsSetInsertion(es, e);
    var r := Insert(es, e);
    forall i | 0 <= i < |r| ensures Carries(crc, ssid, chunks, r[i].seqno, r[i].frm) {
      assert r[i] in r;
      assert r[i] in es || r[i] == e;
    }
  }

  lemma InsertFrom(es: seq<Entry>, e: Entry, nxt: nat)
    requires Increasing(es) && nxt <= e.seqno && forall i :: 0 <= i < |es| ==> nxt < es[i].seqno
    ensures forall i :: 0 <= i < |Insert(es, e)| ==> nxt <= Insert(es, e)[i].seqno
  {
    hide Parse, ParseHead, Encode;
    InsertIsSetInsertion(es, e);
    var r := Insert(es, e);
    forall i | 0 <= i < |r| ensures nxt <= r[i].seqno {
      assert r[i] in r;
      assert r[i] in es || r[i] == e;
    }
  }

  // The run taken off the list is handed up as the next chunks, and what stays are entries.
  lemma RunCarries(crc: Crc, ssid: bv32, chunks: seq<seq<byte>>, rb: seq<Entry>, nxt: nat)
    requires Entries(crc, ssid, chunks, rb) && nxt <= |chunks| + 1
    ensures var k := RunLength(rb, nxt);
            && nxt + k <= |chunks| + 1
            && (forall j :: 0 <= j < k ==> Carries(crc, ssid, chunks, nxt + j, Frms(rb[..k])[j]))
            && Entries(crc, ssid, chunks, rb[k..])
  {
    hide Parse, ParseHead, Encode;
    var k := RunLength(rb, nxt);
    if k > 0 {
      assert Carries(crc, ssid, chunks, rb[k - 1].seqno, rb[k - 1].frm);
    }
    hide Carries;
    forall j | 0 <= j < k ensures Carries(crc, ssid, chunks, nxt + j, rb[j].frm) {
      assert Carries(crc, ssid, chunks, rb[j].seqno, rb[j].frm);
    }
  }

  lemma HandedUp(crc: Crc, ssid: bv32, chunks: seq<seq<byte>>, delivered: seq<seq<byte>>, up: seq<seq<byte>>)
    requires forall i :: 0 <= i < |delivered| ==> Carries(crc, ssid, chunks, i + 1, delivered[i])
    requires forall j :: 0 <= j < |up| ==> Carries(crc, ssid, chunks, |delivered| + 1 + j, up[j])
    ensures forall i :: 0 <= i < |delivered + up| ==> Carries(crc, ssid, chunks, i + 1, (delivered + up)[i])
  {
    hide Carries;
    forall i | 0 <= i < |delivered + up| ensures Carries(crc, ssid, chunks, i + 1, (delivered + up)[i]) {
      if i >= |delivered| {
        assert (delivered + up)[i] == up[i - |delivered|];
      }
    }
  }

  lemma ReceiverInvFrom(crc: Crc, chunks: seq<seq<byte>>, y: Peer)
    requires 1 <= y.sock.nxtrcv <= |chunks| + 1 && Entries(crc, y.sock.ssid, chunks, y.sock.rbuf)
    requires forall i :: 0 <= i < |y.sock.rbuf| ==> y.sock.nxtrcv < y.sock.rbuf[i].seqno
    requires |y.delivered| == y.sock.nxtrcv - 1
    requires forall i :: 0 <= i < |y.delivered| ==> Carries(crc, y.sock.ssid, chunks, i + 1, y.delivered[i])
    ensures ReceiverInv(crc, chunks, y)
  {
    hide Carries, Entries;
  }

  lemma ReceiverInvParts(crc: Crc, chunks: seq<seq<byte>>, y: Peer)
    requires ReceiverInv(crc, chunks, y)
    ensures 1 <= y.sock.nxtrcv <= |chunks| + 1 && Entries(crc, y.sock.ssid, chunks, y.sock.rbuf)
    ensures forall i :: 0 <= i < |y.sock.rbuf| ==> y.sock.nxtrcv < y.sock.rbuf[i].seqno
    ensures |y.delivered| == y.sock.nxtrcv - 1
    ensures forall i :: 0 <= i < |y.delivered| ==> Carries(crc, y.sock.ssid, chunks, i + 1, y.delivered[i])
  {
    hide Carries, Entries;
  }

  lemma EntriesParts(crc: Crc, ssid: bv32, chunks: seq<seq<byte>>, es: seq<Entry>)
    requires Entries(crc, ssid, chunks, es)
    ensures Increasing(es)
    ensures forall i :: 0 <= i < |es| ==> Carries(crc, ssid, chunks, es[i].seqno, es[i].frm)
  {
    hide Carries, Increasing;
  }

  lemma RunDelivered(crc: Crc, chunks: seq<seq<byte>>, y: Peer, rb: seq<Entry>, y': Peer)
    requires ReceiverInv(crc, chunks, y) && Entries(crc, y.sock.ssid, chunks, rb)
    requires forall i :: 0 <= i < |rb| ==> y.sock.nxtrcv <= rb[i].seqno
    requires var k := RunLength(rb, y.sock.nxtrcv);
             && y'.sock.ssid == y.sock.ssid && y'.sock.rbuf == rb[k..] && y'.sock.nxtrcv == y.sock.nxtrcv + k
             && y'.delivered == y.delivered + Frms(rb[..k])
    ensures ReceiverInv(crc, chunks, y')
  {
    hide *;
    var nxt, k := y.sock.nxtrcv, RunLength(rb, y.sock.nxtrcv);
    ReceiverInvParts(crc, chunks, y);
    EntriesParts(crc, y.sock.ssid, chunks, rb);
    RunTakenBehind(rb, nxt);
    RunCarries(crc, y.sock.ssid, chunks, rb, nxt);
    HandedUp(crc, y.sock.ssid, chunks, y.delivered, Frms(rb[..k]));
    ReceiverInvFrom(crc, chunks, y');
  }

  lemma ParseSize(crc: Crc, f: seq<byte>)
    ensures Parse(crc, f).Some? ==> |f| < MTU
  {
  }

  lemma DataReceived(crc: Crc, chunks: seq<seq<byte>>, y: Peer, n: nat, f: seq<byte>)
    requires ReceiverInv(crc, chunks, y) && Carries(crc, y.sock.ssid, chunks, n, f)
    ensures var (s, up, ok) := DoDataFrm(y.sock, n, f);
            && ok && ReceiverInv(crc, chunks, Peer(s, y.chunks, y.delivered + up))
            && s == y.sock.(nxtrcv := s.nxtrcv, force := 2, rbuf := s.rbuf, maxrcv := s.maxrcv)
            && y.sock.nxtrcv <= s.nxtrcv && Received(s, n) && forall m: nat :: Received(y.sock, m) ==> Received(s, m)
  {
    hide Parse, ParseHead, Encode, ReceiverInv, Carries, Insert, Has, Increasing, RunLength, Frms, Entries;
    var nxt := y.sock.nxtrcv;
    CarriesSize(crc, y.sock.ssid, chunks, n, f);
    ReceiverInvParts(crc, chunks, y);
    var (s, up, ok) := DoDataFrm(y.sock, n, f);
    if n >= nxt {
      var e := Entry(n, 0, 0, 0, f);
      var rb := Insert(y.sock.rbuf, e);
      EntriesParts(crc, y.sock.ssid, chunks, y.sock.rbuf);
      InsertCarries(crc, y.sock.ssid, chunks, y.sock.rbuf, n, f);
      InsertFrom(y.sock.rbuf, e, nxt);
      InsertIsSetInsertion(y.sock.rbuf, e);
      RunTakenKeeps(rb, nxt);
      RunDelivered(crc, chunks, y, rb, Peer(s, y.chunks, y.delivered + up));
      assert Has(rb, n);
    } else {
      assert y.delivered + up == y.delivered;
      ReceiverInvFrom(crc, chunks, Peer(s, y.chunks, y.delivered + up));
    }
  }

  lemma CarriesSize(crc: Crc, ssid: bv32, chunks: seq<seq<byte>>, n: nat, f: seq<byte>)
    requires Carries(crc, ssid, chunks, n, f)
    ensures |f| < MTU
  {
    ParseSize(crc, f);
    hide Parse;
  }

  // ---- Acknowledging

  lemma {:induction false} AckDelEntries(crc: Crc, ssid: bv32, chunks: seq<seq<byte>>, es: seq<Entry>, upto: nat, nos: seq<nat>)
    requires Entries(crc, ssid, chunks, es)
    ensures Entries(crc, ssid, chunks, AckDel(es, upto, nos))
  {
    hide Carries, Increasing, AckDel, Confirmed, Has;
    AckDelRemoves(es, upto, nos);
    var r := AckDel(es, upto, nos);
    forall i | 0 <= i < |r| ensures Carries(crc, ssid, chunks, r[i].seqno, r[i].frm) {
      assert r[i] in r;
      AckDelKeepsFrames(es, upto, nos, r[i]);
      var y :| y in es && y.seqno == r[i].seqno && y.frm == r[i].frm;
      var j :| 0 <= j < |es| && es[j] == y;
    }
  }

  // An honest ACK - late, repeated or one part of a split one - removes nothing the receiver lacks.
  lemma AckKeepsNoLoss(x: Sock, y: Sock, upto: nat, nos: seq<nat>)
    requires NoLoss(x, y) && Increasing(x.sbuf)
    requires upto < y.nxtrcv && forall n :: n in nos ==> Received(y, n)
    ensures NoLoss(DoAck(x, upto, nos), y)
  {
    hide Received, Has, Increasing, AckDel, AckMax;
    AckDelRemoves(x.sbuf, upto, nos);
    var x' := DoAck(x, upto, nos);
    forall n | 1 <= n < x'.nxtsnd ensures Has(x'.sbuf, n) || Received(y, n) {
      assert Has(x.sbuf, n) || Received(y, n);
      if Has(x.sbuf, n) && !Has(x'.sbuf, n) {
        QSearchFinds(n, nos);
        ReceivedBelow(y, n);
      }
    }
  }

  lemma ReceivedBelow(y: Sock, n: nat)
    ensures n < y.nxtrcv ==> Received(y, n)
  {
  }

  // Every ACK frame ackex builds is honest.
  lemma AckFrameHonest(crc: Crc, y: Sock, nos: seq<nat>)
    requires 1 <= y.nxtrcv <= SEQ_END && |nos| <= MAX_NOS
    requires forall i :: 0 <= i < |nos| ==> nos[i] < SEQ_END && Received(y, nos[i])
    ensures var f := AckFrame(crc, y, nos); HonestAck(crc, y, f) && Parse(crc, f).Some?
    ensures var p := Parse(crc, AckFrame(crc, y, nos)).value;
            p.cmd == ACK && p.ussid == y.ssid && p.seqno == y.nxtrcv - 1 && DecodeNos(p.data) == nos
  {
    hide Parse, Encode, EncodeNos, DecodeNos, Received;
    ParseEncode(crc, Pkg(y.ssid, y.nxtrcv - 1, ACK, 0, EncodeNos(nos)));
    NosRoundTrip(nos);
  }

  lemma {:induction false} AckFramesHonest(crc: Crc, y: Sock, nos: seq<nat>)
    requires 1 <= y.nxtrcv <= SEQ_END
    requires forall i :: 0 <= i < |nos| ==> nos[i] < SEQ_END && Received(y, nos[i])
    ensures forall i :: 0 <= i < |AckFrames(crc, y, nos)| ==> IsAckOf(crc, y, AckFrames(crc, y, nos)[i])
    decreases |nos|
  {
    hide Parse, Received, AckFrame, HonestAck;
    if |nos| <= MAX_NOS {
      AckFrameHonest(crc, y, nos);
    } else {
      AckFrameHonest(crc, y, nos[..MAX_NOS]);
      AckFramesHonest(crc, y, nos[MAX_NOS..]);
      var fs := AckFrames(crc, y, nos);
      assert fs[1..] == AckFrames(crc, y, nos[MAX_NOS..]);
    }
  }

  ghost predicate IsAckOf(crc: Crc, y: Sock, f: seq<byte>) {
    && Parse(crc, f).Some? && Parse(crc, f).value.cmd == ACK && Parse(crc, f).value.ussid == y.ssid
    && HonestAck(crc, y, f)
  }

  lemma AckOfGrows(crc: Crc, y: Sock, y': Sock, f: seq<byte>)
    requires IsAckOf(crc, y, f) && y' == y.(force := y'.force)
    ensures IsAckOf(crc, y', f)
  {
    hide HonestAck, Parse;
    HonestGrows(crc, y, y', f);
  }

  lemma AckExHonest(crc: Crc, chunks: seq<seq<byte>>, y: Peer)
    requires ReceiverInv(crc, chunks, y) && |chunks| < SEQ_END
    ensures var (s, out) := AckEx(crc, y.sock);
            s == y.sock.(force := s.force) && forall i :: 0 <= i < |out| ==> IsAckOf(crc, s, out[i])
  {
    hide Parse, ReceiverInv, Entries, Carries, IsAckOf, RecvAcks;
    ReceiverInvParts(crc, chunks, y);
    if y.sock.force > 0 {
      var nos := RecvAcks(y.sock.rbuf, y.sock.nxtrcv);
      NumbersHeld(crc, chunks, y.sock, nos);
      AckFramesHonest(crc, y.sock, nos);
      var s, out := AckEx(crc, y.sock).0, AckFrames(crc, y.sock, nos);
      assert AckEx(crc, y.sock).1 == out;
      forall i | 0 <= i < |out| ensures IsAckOf(crc, s, out[i]) {
        AckOfGrows(crc, y.sock, s, out[i]);
      }
    }
  }

  lemma NumbersHeld(crc: Crc, chunks: seq<seq<byte>>, y: Sock, nos: seq<nat>)
    requires Entries(crc, y.ssid, chunks, y.rbuf) && |chunks| < SEQ_END
    requires forall n :: n in nos ==> Has(y.rbuf, n)
    ensures forall i :: 0 <= i < |nos| ==> nos[i] < SEQ_END && Received(y, nos[i])
  {
    hide Parse;
    forall i | 0 <= i < |nos| ensures nos[i] < SEQ_END && Received(y, nos[i]) {
      assert nos[i] in nos;
      var j :| 0 <= j < |y.rbuf| && y.rbuf[j].seqno == nos[i];
      assert Carries(crc, y.ssid, chunks, y.rbuf[j].seqno, y.rbuf[j].frm);
    }
  }

  // What was honest stays honest: the receiver only ever has more.
  lemma HonestGrows(crc: Crc, y: Sock, y': Sock, f: seq<byte>)
    requires HonestAck(crc, y, f) && y.nxtrcv <= y'.nxtrcv
    requires forall n: nat :: Received(y, n) ==> Received(y', n)
    ensures HonestAck(crc, y', f)
  {
    hide Parse, Received, DecodeNos;
  }

  // ---- Every step keeps the invariant

  ghost predicate BothWays(crc: Crc, x: Peer, y: Peer, fwd: set<seq<byte>>, back: set<seq<byte>>) {
    DirInv(crc, x, y, fwd, back) && DirInv(crc, y, x, back, fwd)
  }

  lemma ReceiverInvMore(crc: Crc, chunks: seq<seq<byte>>, more: seq<seq<byte>>, y: Peer)
    requires ReceiverInv(crc, chunks, y)
    ensures ReceiverInv(crc, chunks + more, y)
  {
    hide Parse, Increasing;
  }

  lemma DataOrAckMore(crc: Crc, ssid: bv32, chunks: seq<seq<byte>>, more: seq<seq<byte>>, fwd: set<seq<byte>>)
    requires forall f :: f in fwd ==> DataOrAck(crc, ssid, chunks, f)
    ensures forall f :: f in fwd ==> DataOrAck(crc, ssid, chunks + more, f)
  {
    MoreChunks(crc, ssid, chunks, more);
    hide DataOrAck;
  }

  // A data frame is acceptable to the receiver and, not being an ACK, claims nothing.
  lemma DataIsHarmless(crc: Crc, ssid: bv32, chunks: seq<seq<byte>>, f: seq<byte>, s: Sock)
    requires IsData(crc, ssid, chunks, f)
    ensures DataOrAck(crc, ssid, chunks, f) && HonestAck(crc, s, f)
  {
    hide Parse;
  }

  lemma AllDataHarmless(crc: Crc, ssid: bv32, chunks: seq<seq<byte>>, out: seq<seq<byte>>, s: Sock)
    requires AllData(crc, ssid, chunks, out)
    ensures forall f :: f in Elems(out) ==> DataOrAck(crc, ssid, chunks, f) && HonestAck(crc, s, f)
  {
    hide IsData, DataOrAck, HonestAck;
    forall f | f in Elems(out) ensures DataOrAck(crc, ssid, chunks, f) && HonestAck(crc, s, f) {
      DataIsHarmless(crc, ssid, chunks, f, s);
    }
  }

  // The receiving half of s and s' agree: what was honest for s is honest for s'.
  lemma HonestSame(crc: Crc, s: Sock, s': Sock, back: set<seq<byte>>)
    requires s'.nxtrcv == s.nxtrcv && s'.rbuf == s.rbuf
    requires forall f :: f in back ==> HonestAck(crc, s, f)
    ensures forall f :: f in back ==> HonestAck(crc, s', f)
  {
    hide HonestAck, Has;
    forall f | f in back ensures HonestAck(crc, s', f) {
      HonestGrows(crc, s, s', f);
    }
  }

  lemma SendKeeps(crc: Crc, x: Peer, y: Peer, fwd: set<seq<byte>>, back: set<seq<byte>>, data: seq<byte>, clock: nat -> int)
    requires BothWays(crc, x, y, fwd, back) && x.sock.nxtsnd + |Chunks(data)| <= SEQ_END
    ensures var (s, out) := SendBytes(crc, x.sock, data, clock);
            BothWays(crc, Peer(s, x.chunks + Chunks(data), x.delivered), y, fwd + Elems(out), back)
  {
    hide Parse, SenderInv, ReceiverInv, DataOrAck, HonestAck, AllData, SendChunks, Chunks, Has, Elems;
    var cs := Chunks(data);
    assert forall i :: 0 <= i < |cs| ==> cs[i] in cs;
    SendChunksKeepsFresh(crc, x, cs, clock);
    var (s, out) := SendBytes(crc, x.sock, data, clock);
    ReceiverInvMore(crc, x.chunks, cs, y);
    DataOrAckMore(crc, x.sock.ssid, x.chunks, cs, fwd);
    AllDataHarmless(crc, s.ssid, x.chunks + cs, out, s);
    HonestSame(crc, x.sock, s, fwd);
    ReceiverInvParts(crc, y.chunks, x);
    ReceiverInvFrom(crc, y.chunks, Peer(s, x.chunks + cs, x.delivered));
  }

  lemma SendChunksKeepsFresh(crc: Crc, x: Peer, cs: seq<seq<byte>>, clock: nat -> int)
    requires SenderInv(crc, x) && x.sock.nxtsnd + |cs| <= SEQ_END
    requires forall i :: 0 <= i < |cs| ==> |cs[i]| <= CONTENT
    ensures Queued(crc, x, cs, SendChunks(crc, x.sock, cs, clock, []).0, SendChunks(crc, x.sock, cs, clock, []).1)
  {
    assert AllData(crc, x.sock.ssid, x.chunks, []);
    hide *;
    SendChunksKeeps(crc, x, cs, clock, []);
  }

  lemma ResendEntries(crc: Crc, x: Peer, a: ResendArgs, budget: nat)
    requires SenderInv(crc, x)
    ensures var (es, out) := ResendPass(x.sock.sbuf, 0, a, budget, []);
            && SenderInv(crc, x.(sock := x.sock.(sbuf := es))) && AllData(crc, x.sock.ssid, x.chunks, out)
            && forall n :: Has(es, n) <==> Has(x.sock.sbuf, n)
  {
    hide Parse, ResendPass, Due;
    ResendPassKeeps(x.sock.sbuf, 0, a, budget, []);
    var (es, out) := ResendPass(x.sock.sbuf, 0, a, budget, []);
    var es0 := x.sock.sbuf;
    assert forall i :: 0 <= i < |es| ==> es[i].seqno == es0[i].seqno && es[i].frm == es0[i].frm;
    forall n ensures Has(es, n) <==> Has(es0, n) {
      if Has(es, n) { var i :| 0 <= i < |es| && es[i].seqno == n; assert es0[i].seqno == n; }
      if Has(es0, n) { var i :| 0 <= i < |es0| && es0[i].seqno == n; assert es[i].seqno == n; }
    }
    forall i | 0 <= i < |out| ensures IsData(crc, x.sock.ssid, x.chunks, out[i]) {
      var j :| 0 <= j < |es0| && out[i] == es0[j].frm;
      assert Carries(crc, x.sock.ssid, x.chunks, es0[j].seqno, es0[j].frm);
    }
  }

  lemma ResendKeeps(crc: Crc, x: Peer, y: Peer, fwd: set<seq<byte>>, back: set<seq<byte>>, now: int, delta: nat, base: int, budget: nat)
    requires BothWays(crc, x, y, fwd, back)
    ensures var (s, out) := Resend(x.sock, now, delta, base, budget);
            BothWays(crc, x.(sock := s), y, fwd + Elems(out), back)
  {
    hide Parse, SenderInv, ReceiverInv, DataOrAck, HonestAck, AllData, ResendPass, Has, Elems;
    ResendEntries(crc, x, ResendArgs(now, x.sock.ackmax, delta, base), budget);
    var (s, out) := Resend(x.sock, now, delta, base, budget);
    AllDataHarmless(crc, s.ssid, x.chunks, out, s);
    HonestSame(crc, x.sock, s, fwd);
    ReceiverInvParts(crc, y.chunks, x);
    ReceiverInvFrom(crc, y.chunks, x.(sock := s));
  }

  lemma SenderInvSame(crc: Crc, x: Peer, x': Peer)
    requires SenderInv(crc, x) && x'.chunks == x.chunks
    requires x'.sock.ssid == x.sock.ssid && x'.sock.nxtsnd == x.sock.nxtsnd && x'.sock.sbuf == x.sock.sbuf
    ensures SenderInv(crc, x')
  {
    hide Entries;
  }

  lemma AckIsHarmless(crc: Crc, ssid: bv32, chunks: seq<seq<byte>>, out: seq<seq<byte>>, s: Sock)
    requires s.ssid == ssid && forall i :: 0 <= i < |out| ==> IsAckOf(crc, s, out[i])
    ensures forall f :: f in Elems(out) ==> DataOrAck(crc, ssid, chunks, f) && HonestAck(crc, s, f)
  {
    hide Parse, HonestAck;
  }

  lemma ChunksFit(crc: Crc, x: Peer)
    requires SenderInv(crc, x)
    ensures |x.chunks| < SEQ_END && x.sock.nxtsnd == |x.chunks| + 1
  {
    hide Entries;
  }

  lemma AckActKeeps(crc: Crc, x: Peer, y: Peer, fwd: set<seq<byte>>, back: set<seq<byte>>)
    requires BothWays(crc, x, y, fwd, back) && x.sock.nxtrcv > 0
    ensures var (s, out) := AckEx(crc, x.sock);
            BothWays(crc, x.(sock := s), y, fwd + Elems(out), back)
  {
    hide Parse, SenderInv, ReceiverInv, DataOrAck, HonestAck, AckEx, Has, Elems;
    ChunksFit(crc, y);
    AckExHonest(crc, y.chunks, x);
    var (s, out) := AckEx(crc, x.sock);
    AckIsHarmless(crc, x.sock.ssid, x.chunks, out, s);
    HonestSame(crc, x.sock, s, fwd);
    SenderInvSame(crc, x, x.(sock := s));
    ReceiverInvParts(crc, y.chunks, x);
    ReceiverInvFrom(crc, y.chunks, x.(sock := s));
  }

  // What onrecv does with a frame that may have been sent, by kind.
  lemma OnRecvCases(crc: Crc, s: Sock, chunks: seq<seq<byte>>, f: seq<byte>)
    requires DataOrAck(crc, s.ssid, chunks, f)
    ensures Parse(crc, f).Some?
    ensures var p := Parse(crc, f).value;
            if p.cmd == ACK then OnRecv(crc, s, f) == (DoAck(s, p.seqno, DecodeNos(p.data)), [], true)
            else Carries(crc, s.ssid, chunks, p.seqno, f) && OnRecv(crc, s, f) == DoDataFrm(s, p.seqno, f)
  {
    ParseHeadAgrees(crc, f);
    hide Parse, ParseHead, DoAck, DoDataFrm, DecodeNos;
  }

  lemma RecvDataKeeps(crc: Crc, x: Peer, y: Peer, fwd: set<seq<byte>>, back: set<seq<byte>>, n: nat, f: seq<byte>)
    requires BothWays(crc, x, y, fwd, back) && Carries(crc, x.sock.ssid, y.chunks, n, f)
    ensures var (s, up, ok) := DoDataFrm(x.sock, n, f);
            ok && BothWays(crc, Peer(s, x.chunks, x.delivered + up), y, fwd, back)
  {
    hide Parse, SenderInv, ReceiverInv, DataOrAck, HonestAck, Carries, DoDataFrm, Has, Received;
    DataReceived(crc, y.chunks, x, n, f);
    var (s, up, ok) := DoDataFrm(x.sock, n, f);
    var x' := Peer(s, x.chunks, x.delivered + up);
    SenderInvSame(crc, x, x');
    forall g | g in fwd ensures HonestAck(crc, s, g) {
      HonestGrows(crc, x.sock, s, g);
    }
  }

  lemma RecvAckKeeps(crc: Crc, x: Peer, y: Peer, fwd: set<seq<byte>>, back: set<seq<byte>>, upto: nat, nos: seq<nat>)
    requires BothWays(crc, x, y, fwd, back)
    requires upto < y.sock.nxtrcv && forall n :: n in nos ==> Received(y.sock, n)
    ensures BothWays(crc, x.(sock := DoAck(x.sock, upto, nos)), y, fwd, back)
  {
    hide Parse, ReceiverInv, DataOrAck, HonestAck, AckDel, AckMax, Has, Entries;
    EntriesParts(crc, x.sock.ssid, x.chunks, x.sock.sbuf);
    AckDelEntries(crc, x.sock.ssid, x.chunks, x.sock.sbuf, upto, nos);
    AckKeepsNoLoss(x.sock, y.sock, upto, nos);
    var s := DoAck(x.sock, upto, nos);
    HonestSame(crc, x.sock, s, fwd);
    ReceiverInvParts(crc, y.chunks, x);
    ReceiverInvFrom(crc, y.chunks, x.(sock := s));
  }

  lemma RecvKeeps(crc: Crc, x: Peer, y: Peer, fwd: set<seq<byte>>, back: set<seq<byte>>, f: seq<byte>)
    requires BothWays(crc, x, y, fwd, back) && f in back
    ensures var (s, up, ok) := OnRecv(crc, x.sock, f);
            ok && BothWays(crc, Peer(s, x.chunks, x.delivered + up), y, fwd, back)
  {
    hide Parse, SenderInv, ReceiverInv, OnRecv, DoAck, DoDataFrm, Has, Received, Carries, NoLoss, DataOrAck;
    assert DataOrAck(crc, y.sock.ssid, y.chunks, f) && HonestAck(crc, y.sock, f);
    OnRecvCases(crc, x.sock, y.chunks, f);
    var p := Parse(crc, f).value;
    if p.cmd == ACK {
      RecvAckKeeps(crc, x, y, fwd, back, p.seqno, DecodeNos(p.data));
      assert x.delivered + [] == x.delivered;
    } else {
      RecvDataKeeps(crc, x, y, fwd, back, p.seqno, f);
    }
  }

  lemma {:induction false} StepKeeps(crc: Crc, s: Sys, e: Event)
    requires Inv(crc, s) && CanStep(s, e)
    ensures Inv(crc, Step(crc, s, e))
  {
    hide DirInv, SendBytes, Resend, AckEx, OnRecv;
    var (x, y, fwd, back) := if e.atA then (s.a, s.b, s.toB, s.toA) else (s.b, s.a, s.toA, s.toB);
    match e.act
    case Send(data, clock) => SendKeeps(crc, x, y, fwd, back, data, clock);
    case ResendAct(now, delta, base, budget) => ResendKeeps(crc, x, y, fwd, back, now, delta, base, budget);
    case AckAct => AckActKeeps(crc, x, y, fwd, back);
    case Recv(f) =>
      RecvKeeps(crc, x, y, fwd, back, f);
      assert back + Elems([]) == back && fwd + Elems([]) == fwd;
  }

  lemma InvAtStart(crc: Crc, ssid: bv32)
    ensures Inv(crc, NewSys(ssid))
  {
  }

  // Both sides can always take their next step.
  lemma InvCanStep(crc: Crc, s: Sys)
    requires Inv(crc, s)
    ensures s.a.sock.nxtrcv > 0 && s.b.sock.nxtrcv > 0
  {
  }

  // ---- Runs

  // The events of evs can happen one after another from s.
  ghost predicate Feasible(crc: Crc, s: Sys, evs: seq<Event>)
    decreases |evs|
  {
    evs == [] || (CanStep(s, evs[0]) && Feasible(crc, Step(crc, s, evs[0]), evs[1..]))
  }

  ghost function Run(crc: Crc, s: Sys, evs: seq<Event>): Sys
    requires Feasible(crc, s, evs)
    decreases |evs|
  {
    if evs == [] then s else Run(crc, Step(crc, s, evs[0]), evs[1..])
  }

  lemma {:induction false} RunKeepsInv(crc: Crc, s: Sys, evs: seq<Event>)
    requires Inv(crc, s) && Feasible(crc, s, evs)
    ensures Inv(crc, Run(crc, s, evs))
    decreases |evs|
  {
    hide Inv, Step, CanStep;
    if evs != [] {
      StepKeeps(crc, s, evs[0]);
      RunKeepsInv(crc, Step(crc, s, evs[0]), evs[1..]);
    }
  }

  // ---- What was accepted, what was handed up

  function Concat(cs: seq<seq<byte>>): seq<byte> {
    if cs == [] then [] else cs[0] + Concat(cs[1..])
  }

  lemma {:induction false} ConcatAppend(a: seq<seq<byte>>, b: seq<seq<byte>>)
    ensures Concat(a + b) == Concat(a) + Concat(b)
  {
    if a == [] {
      assert a + b == b;
    } else {
      assert (a + b)[1..] == a[1..] + b;
      ConcatAppend(a[1..], b);
    }
  }

  lemma {:induction false} ConcatPrefix(a: seq<seq<byte>>, b: seq<seq<byte>>)
    requires a <= b
    ensures Concat(a) <= Concat(b)
  {
    ConcatAppend(a, b[|a|..]);
    assert a + b[|a|..] == b;
  }

  lemma {:induction false} ChunksConcat(data: seq<byte>)
    ensures Concat(Chunks(data)) == data
  {
    if data != [] {
      var n := Cut(|data|);
      ChunksConcat(data[n..]);
      assert Chunks(data)[1..] == Chunks(data[n..]);
      assert data[..n] + data[n..] == data;
    }
  }

  // All bytes one side has given to sendbytes, in order.
  function Accepted(evs: seq<Event>, atA: bool): seq<byte> {
    if evs == [] then []
    else AcceptedBy(evs[0], atA) + Accepted(evs[1..], atA)
  }

  function AcceptedBy(e: Event, atA: bool): seq<byte> {
    if e.atA == atA && e.act.Send? then e.act.data else []
  }

  lemma StepAccepted(crc: Crc, s: Sys, e: Event)
    requires CanStep(s, e)
    ensures var t := Step(crc, s, e);
            && Concat(t.a.chunks) == Concat(s.a.chunks) + AcceptedBy(e, true)
            && Concat(t.b.chunks) == Concat(s.b.chunks) + AcceptedBy(e, false)
  {
    hide SendBytes, Resend, AckEx, OnRecv, Chunks, Concat;
    if e.act.Send? {
      ChunksConcat(e.act.data);
      ConcatAppend(if e.atA then s.a.chunks else s.b.chunks, Chunks(e.act.data));
    }
  }

  lemma {:induction false} RunAccepted(crc: Crc, s: Sys, evs: seq<Event>)
    requires Feasible(crc, s, evs)
    ensures var t := Run(crc, s, evs);
            && Concat(t.a.chunks) == Concat(s.a.chunks) + Accepted(evs, true)
            && Concat(t.b.chunks) == Concat(s.b.chunks) + Accepted(evs, false)
    decreases |evs|
  {
    hide Step, Concat, AcceptedBy;
    if evs != [] {
      StepAccepted(crc, s, evs[0]);
      RunAccepted(crc, Step(crc, s, evs[0]), evs[1..]);
    }
  }

  // The payloads the application reads out of the frames handed up to it.
  function Payloads(crc: Crc, fs: seq<seq<byte>>): (r: seq<seq<byte>>)
    ensures |r| == |fs|
  {
    seq(|fs|, i requires 0 <= i < |fs| => match Parse(crc, fs[i]) { case None => [] case Some(p) => p.data })
  }

  lemma DeliveredPayloads(crc: Crc, x: Peer, y: Peer)
    requires ReceiverInv(crc, x.chunks, y)
    ensures Payloads(crc, y.delivered) <= x.chunks
  {
    hide Parse, Entries;
    forall i | 0 <= i < |y.delivered| ensures Payloads(crc, y.delivered)[i] == x.chunks[i] {
      assert Carries(crc, y.sock.ssid, x.chunks, i + 1, y.delivered[i]);
    }
  }

  // ---- The guarantees

  // y has been handed exactly the first chunks accepted at x, in order and once each.
  ghost predicate InOrderOnce(crc: Crc, x: Peer, y: Peer) {
    && |y.delivered| == y.sock.nxtrcv - 1 <= |x.chunks|
    && Payloads(crc, y.delivered) == x.chunks[..|y.delivered|]
  }

  /** End-to-end safety: in every run, and for both directions, the frames handed up carry exactly the
      first chunks accepted on the other side, so the bytes read are a prefix of the bytes given to
      sendbytes there. */
  lemma Safety(crc: Crc, ssid: bv32, evs: seq<Event>)
    requires Feasible(crc, NewSys(ssid), evs)
    ensures var s := Run(crc, NewSys(ssid), evs);
            && InOrderOnce(crc, s.a, s.b) && Concat(Payloads(crc, s.b.delivered)) <= Accepted(evs, true)
            && InOrderOnce(crc, s.b, s.a) && Concat(Payloads(crc, s.a.delivered)) <= Accepted(evs, false)
  {
    hide *;
    InvAtStart(crc, ssid);
    RunKeepsInv(crc, NewSys(ssid), evs);
    RunAccepted(crc, NewSys(ssid), evs);
    ConcatNothing(crc, ssid);
    InvSafe(crc, Run(crc, NewSys(ssid), evs));
  }

  lemma ConcatNothing(crc: Crc, ssid: bv32)
    ensures forall d: seq<byte> :: Concat(NewSys(ssid).a.chunks) + d == d && Concat(NewSys(ssid).b.chunks) + d == d
  {
  }

  lemma InvSafe(crc: Crc, s: Sys)
    requires Inv(crc, s)
    ensures InOrderOnce(crc, s.a, s.b) && Concat(Payloads(crc, s.b.delivered)) <= Concat(s.a.chunks)
    ensures InOrderOnce(crc, s.b, s.a) && Concat(Payloads(crc, s.a.delivered)) <= Concat(s.b.chunks)
  {
    hide Parse, SenderInv, NoLoss, DataOrAck, HonestAck, Payloads, Concat, Entries, Carries;
    DeliveredPayloads(crc, s.a, s.b);
    DeliveredPayloads(crc, s.b, s.a);
    ConcatPrefix(Payloads(crc, s.b.delivered), s.a.chunks);
    ConcatPrefix(Payloads(crc, s.a.delivered), s.b.chunks);
  }

  // What x knows of the number n and of its acknowledgement by y.
  ghost predicate Accounted(x: Sock, y: Sock, n: nat) {
    && (n < x.nxtsnd ==> Has(x.sbuf, n) || Received(y, n))
    && (n < x.nxtsnd ==> (Acked(x, n) <==> forall m :: 1 <= m <= n ==> !Has(x.sbuf, m)))
    && (n < x.nxtsnd && Acked(x, n) ==> forall m :: 1 <= m <= n ==> Received(y, m))
  }

  // acked() is right about n exactly when n was sent or something sent is unacknowledged.
  ghost predicate AckedRight(x: Sock, y: Sock, n: nat) {
    (Acked(x, n) ==> Received(y, n)) <==> (n < x.nxtsnd || x.sbuf != [])
  }

  /** No loss: in every run and both directions, each number ever sent is still in the send list or with the
      receiver, and acked() of a sent number means that it and all numbers before it were received. */
  lemma NothingLost(crc: Crc, ssid: bv32, evs: seq<Event>, n: nat)
    requires Feasible(crc, NewSys(ssid), evs) && n >= 1
    ensures var s := Run(crc, NewSys(ssid), evs); Accounted(s.a.sock, s.b.sock, n) && Accounted(s.b.sock, s.a.sock, n)
  {
    InvAtStart(crc, ssid);
    RunKeepsInv(crc, NewSys(ssid), evs);
    var s := Run(crc, NewSys(ssid), evs);
    hide *;
    MirrorInv(crc, s);
    NothingLostNow(crc, s, n);
    NothingLostNow(crc, Mirror(s), n);
    MirrorSides(s);
  }

  lemma MirrorInv(crc: Crc, s: Sys)
    requires Inv(crc, s)
    ensures Inv(crc, Mirror(s))
  {
    hide DirInv;
  }

  lemma MirrorSides(s: Sys)
    ensures Mirror(s).a == s.b && Mirror(s).b == s.a
  {
  }

  lemma FirstQueued(crc: Crc, x: Peer)
    requires SenderInv(crc, x) && x.sock.sbuf != []
    ensures 1 <= x.sock.sbuf[0].seqno < x.sock.nxtsnd
  {
    hide Parse;
    assert Carries(crc, x.sock.ssid, x.chunks, x.sock.sbuf[0].seqno, x.sock.sbuf[0].frm);
  }

  lemma NothingLostNow(crc: Crc, s: Sys, n: nat)
    requires Inv(crc, s) && n >= 1
    ensures Accounted(s.a.sock, s.b.sock, n)
  {
    hide Parse, DataOrAck, HonestAck, ReceiverInv, Received;
    if s.a.sock.sbuf != [] {
      FirstQueued(crc, s.a);
      assert Has(s.a.sock.sbuf, s.a.sock.sbuf[0].seqno);
    }
  }

  /** In every run and both directions acked() answers right about n if and only if n has been sent or the
      send list is not empty. */
  lemma AckedExactly(crc: Crc, ssid: bv32, evs: seq<Event>, n: nat)
    requires Feasible(crc, NewSys(ssid), evs) && n >= 1
    ensures var s := Run(crc, NewSys(ssid), evs); AckedRight(s.a.sock, s.b.sock, n) && AckedRight(s.b.sock, s.a.sock, n)
  {
    InvAtStart(crc, ssid);
    RunKeepsInv(crc, NewSys(ssid), evs);
    var s := Run(crc, NewSys(ssid), evs);
    hide *;
    MirrorInv(crc, s);
    AckedRightNow(crc, s, n);
    AckedRightNow(crc, Mirror(s), n);
    MirrorSides(s);
  }

  lemma AckedRightNow(crc: Crc, s: Sys, n: nat)
    requires Inv(crc, s) && n >= 1
    ensures AckedRight(s.a.sock, s.b.sock, n)
  {
    hide Parse, DataOrAck, HonestAck, ReceiverInv, Received, NoLoss;
    NothingLostNow(crc, s, n);
    if s.a.sock.sbuf != [] {
      FirstQueued(crc, s.a);
    }
    if n >= s.a.sock.nxtsnd {
      NotReceived(crc, s.a.chunks, s.b, n);
    }
  }

  // A number past the history has not been received.
  lemma NotReceived(crc: Crc, chunks: seq<seq<byte>>, y: Peer, n: nat)
    requires ReceiverInv(crc, chunks, y) && n > |chunks|
    ensures !Received(y.sock, n)
  {
    hide Parse;
    forall i | 0 <= i < |y.sock.rbuf| ensures y.sock.rbuf[i].seqno != n {
      assert Carries(crc, y.sock.ssid, chunks, y.sock.rbuf[i].seqno, y.sock.rbuf[i].frm);
    }
  }

  // For instance of number 1 when nothing has been sent.
  lemma AckedOfUnsent(ssid: bv32)
    ensures var s := NewSys(ssid); Acked(s.a.sock, 1) && !Received(s.b.sock, 1)
  {
  }

  // No frame of a run makes the receiver give up the connection.
  lemma ReceiveNeverFails(crc: Crc, ssid: bv32, evs: seq<Event>, f: seq<byte>)
    requires Feasible(crc, NewSys(ssid), evs)
    ensures var s := Run(crc, NewSys(ssid), evs);
            && (f in s.toB ==> OnRecv(crc, s.b.sock, f).2) && (f in s.toA ==> OnRecv(crc, s.a.sock, f).2)
  {
    InvAtStart(crc, ssid);
    RunKeepsInv(crc, NewSys(ssid), evs);
    var s := Run(crc, NewSys(ssid), evs);
    hide Parse, DirInv, OnRecv, Run;
    if f in s.toB { RecvKeeps(crc, s.b, s.a, s.toA, s.toB, f); }
    if f in s.toA { RecvKeeps(crc, s.a, s.b, s.toB, s.toA, f); }
  }
}
