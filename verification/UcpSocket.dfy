/** class ucpsocket: the counters and the two frame lists updated in place, proved against UcpSpec. */
module UcpSocket {
  import opened Wrappers
  import opened Bytes
  import opened UcpFrame
  import opened UcpFrames
  import opened UcpSpec
  import opened UcpFrmPkg
  import opened UcpFrameList

  class Socket {
    var ssid: bv32
    var nxtsndno: nat
    var nxtrcvno: nat
    var ackmaxsndno: nat
    var forceack2: int
    const sbuf: FrameList
    const rbuf: FrameList

    ghost predicate Lists()
      reads this`nxtsndno, sbuf, rbuf, sbuf.nodes, rbuf.nodes
    {
      sbuf != rbuf && sbuf.Valid() && rbuf.Valid() && Apart() && QueuedBelow()
    }

    ghost predicate Valid()
      reads this, sbuf, rbuf, sbuf.nodes, rbuf.nodes
    {
      Lists() && 0 < nxtsndno <= SEQ_END && 0 < nxtrcvno
    }

    // No node is in both lists.
    ghost predicate Apart()
      reads sbuf, rbuf
    {
      forall i :: 0 <= i < |rbuf.nodes| ==> rbuf.nodes[i] !in sbuf.nodes
    }

    ghost predicate QueuedBelow()
      reads this`nxtsndno, sbuf
    {
      forall i :: 0 <= i < |sbuf.es| ==> sbuf.es[i].seqno < nxtsndno
    }

    ghost function View(): Sock
      reads this, sbuf, rbuf
    {
      Sock(ssid, nxtsndno, nxtrcvno, ackmaxsndno, forceack2, sbuf.es, rbuf.es, rbuf.maxseqno)
    }

    constructor (ssid: bv32)
      ensures Valid() && View() == NewSock(ssid)
      ensures fresh(sbuf) && fresh(rbuf)
    {
      this.ssid, nxtsndno, nxtrcvno, ackmaxsndno, forceack2 := ssid, 1, 1, 0, 0;
      sbuf := new FrameList();
      rbuf := new FrameList();
    }

    // The frame of one chunk: pkg.makepkg into a fresh node buffer.
    method PackData(crc: Crc, chunk: seq<byte>) returns (f: seq<byte>)
      requires nxtsndno < SEQ_END && |chunk| <= CONTENT
      ensures f == DataFrame(crc, ssid, nxtsndno, chunk)
    {
      hide Encode;
      var pkg := new FrmPkg();
      pkg.ussid := ssid;
      pkg.seqno := nxtsndno;
      pkg.cmd := DAT;
      var frm := new byte[MTU];
      var n := pkg.MakePkg(crc, frm, 0, MTU, chunk);
      f := frm[..n];
    }

    // fp covers the send list and leaves the receive list alone.
    ghost predicate Frame(fp: set<Node>)
      reads this, sbuf, rbuf
    {
      && (forall i :: 0 <= i < |sbuf.nodes| ==> sbuf.nodes[i] in fp)
      && (forall i :: 0 <= i < |rbuf.nodes| ==> rbuf.nodes[i] !in fp)
    }

    // _sbuf.push_back(seqno, mstime, pnode)
    method Enqueue(f: seq<byte>, now: int, ghost fp: set<Node>) returns (ghost fp': set<Node>)
      requires sbuf != rbuf && sbuf.Valid() && rbuf.Valid() && QueuedBelow() && Frame(fp)
      modifies sbuf`head, sbuf`tail, sbuf`size, sbuf`nodes, sbuf`es, fp
      ensures sbuf.Valid() && rbuf.Valid() && sbuf.es == old(sbuf.es) + [Entry(nxtsndno, 0, 0, now, f)]
      ensures Frame(fp') && fresh(fp' - fp)
    {
      hide FrameList.Valid;
      var node := new Node(nxtsndno, now, f);
      ghost var rnodes := rbuf.nodes;
      sbuf.LinkLast(node);
      fp' := fp + {node};
      assert forall i :: 0 <= i < |rnodes| ==> rnodes[i] !in fp && rnodes[i] != node;
      rbuf.ValidKept();
    }

    // One turn of sendbytes: number, encode, hand to udpsend, queue. fp is a frame for the send list.
    method SendChunk(crc: Crc, chunk: seq<byte>, now: int, ghost fp: set<Node>) returns (f: seq<byte>, ghost fp': set<Node>)
      requires Valid() && nxtsndno < SEQ_END && |chunk| <= CONTENT && Frame(fp)
      modifies this`nxtsndno, sbuf`head, sbuf`tail, sbuf`size, sbuf`nodes, sbuf`es, fp
      ensures Valid() && f == DataFrame(crc, ssid, old(nxtsndno), chunk)
      ensures View() == old(View()).(nxtsnd := old(nxtsndno) + 1, sbuf := old(sbuf.es) + [Entry(old(nxtsndno), 0, 0, now, f)])
      ensures Frame(fp') && fresh(fp' - fp)
    {
      hide DataFrame, FrameList.Valid;
      f := PackData(crc, chunk);
      fp' := Enqueue(f, now, fp);
      nxtsndno := nxtsndno + 1;
    }

    // The state of sendbytes' loop: ns bytes are cut off, their frames are out.
    ghost predicate Sending(crc: Crc, v0: Sock, pdata: seq<byte>, clock: nat -> int, ns: nat, out: seq<seq<byte>>, fp: set<Node>)
      reads this, sbuf, rbuf, sbuf.nodes, rbuf.nodes
    {
      && Valid() && Frame(fp) && ns <= |pdata| && nxtsndno + |Chunks(pdata[ns..])| <= SEQ_END
      && SendChunks(crc, View(), Chunks(pdata[ns..]), clock, out) == UcpSpec.SendBytes(crc, v0, pdata, clock)
    }

    method SendTurn(crc: Crc, ghost v0: Sock, pdata: seq<byte>, clock: nat -> int, ns: nat, out: seq<seq<byte>>, ghost fp: set<Node>)
      returns (ns': nat, out': seq<seq<byte>>, ghost fp': set<Node>)
      requires Sending(crc, v0, pdata, clock, ns, out, fp) && ns < |pdata|
      modifies this`nxtsndno, sbuf`head, sbuf`tail, sbuf`size, sbuf`nodes, sbuf`es, fp
      ensures Sending(crc, v0, pdata, clock, ns', out', fp') && ns < ns' && fresh(fp' - fp)
    {
      hide DataFrame, Chained, Distinct, Increasing;
      var nc := CONTENT;
      if ns + nc > |pdata| {
        nc := |pdata| - ns;
      }
      ghost var rest := pdata[ns..];
      assert rest[..nc] == pdata[ns..ns + nc] && rest[nc..] == pdata[ns + nc..] && Cut(|rest|) == nc;
      assert Chunks(rest) == [pdata[ns..ns + nc]] + Chunks(pdata[ns + nc..]);
      assert Chunks(rest)[1..] == Chunks(pdata[ns + nc..]);
      var f;
      f, fp' := SendChunk(crc, pdata[ns..ns + nc], clock(nxtsndno), fp);
      ns', out' := ns + nc, out + [f];
    }

    method SendLoop(crc: Crc, pdata: seq<byte>, clock: nat -> int, ghost fp: set<Node>) returns (ns: nat, out: seq<seq<byte>>)
      requires Valid() && Frame(fp) && nxtsndno + |Chunks(pdata)| <= SEQ_END
      modifies this`nxtsndno, sbuf`head, sbuf`tail, sbuf`size, sbuf`nodes, sbuf`es, fp
      ensures Valid() && ns == |pdata| && (View(), out) == UcpSpec.SendBytes(crc, old(View()), pdata, clock)
    {
      hide Sending, UcpSpec.SendBytes, Valid, Frame;
      SendStart(crc, pdata, clock, fp);
      ghost var v0, fq := View(), fp;
      ns, out := 0, [];
      while ns < |pdata|
        invariant Sending(crc, v0, pdata, clock, ns, out, fq) && fresh(fq - fp)
        decreases |pdata| - ns
      {
        ns, out, fq := SendTurn(crc, v0, pdata, clock, ns, out, fq);
      }
      SendDone(crc, v0, pdata, clock, ns, out, fq);
    }

    lemma SendStart(crc: Crc, pdata: seq<byte>, clock: nat -> int, fp: set<Node>)
      requires Valid() && Frame(fp) && nxtsndno + |Chunks(pdata)| <= SEQ_END
      ensures Sending(crc, View(), pdata, clock, 0, [], fp)
    {
      assert pdata[0..] == pdata;
    }

    lemma SendDone(crc: Crc, v0: Sock, pdata: seq<byte>, clock: nat -> int, ns: nat, out: seq<seq<byte>>, fp: set<Node>)
      requires Sending(crc, v0, pdata, clock, ns, out, fp) && ns >= |pdata|
      ensures Valid() && ns == |pdata| && (View(), out) == UcpSpec.SendBytes(crc, v0, pdata, clock)
    {
      assert pdata[ns..] == [];
    }

    // sendbytes(pdata, size): the accepted bytes leave as numbered frames and stay queued.
    method SendBytes(crc: Crc, pdata: seq<byte>, clock: nat -> int) returns (ns: nat, out: seq<seq<byte>>)
      requires Valid() && nxtsndno + |Chunks(pdata)| <= SEQ_END
      modifies this`nxtsndno, sbuf`head, sbuf`tail, sbuf`size, sbuf`nodes, sbuf`es, sbuf.nodes
      ensures Valid() && ns == |pdata| && (View(), out) == UcpSpec.SendBytes(crc, old(View()), pdata, clock)
    {
      ns, out := SendLoop(crc, pdata, clock, set n | n in sbuf.nodes);
    }

    // resend
    method Resend(now: int, delta: nat, base: int, maxsndfrms: nat) returns (out: seq<seq<byte>>)
      requires Valid()
      modifies sbuf`es, sbuf`numresend, sbuf.nodes`cntresend, sbuf.nodes`mstime
      ensures Valid() && (View(), out) == UcpSpec.Resend(old(View()), now, delta, base, maxsndfrms)
    {
      hide Chained, Distinct, ResendPass;
      var a := ResendArgs(now, ackmaxsndno, delta, base);
      ResendPassKeeps(sbuf.es, 0, a, maxsndfrms, []);
      ghost var rnodes, snodes := rbuf.nodes, sbuf.nodes;
      out := sbuf.Resend(a, maxsndfrms);
      assert forall i :: 0 <= i < |rnodes| ==> rnodes[i] !in snodes;
      rbuf.ValidKept();
    }

    // acked
    method Acked(seqno: nat) returns (b: bool)
      requires Valid()
      ensures b == UcpSpec.Acked(View(), seqno)
    {
      b := sbuf.Acked(seqno);
    }

    // do_datafrm: store the frame, hand up what is now in order. The result is -1 when it cannot be stored.
    method DoDataFrm(crc: Crc, seqno: nat, frm: seq<byte>) returns (r: int, frmout: seq<Node>)
      requires Valid()
      modifies this`forceack2, this`nxtrcvno, rbuf, rbuf.nodes
      ensures Valid()
      ensures HandedUp(old(View()), seqno, frm, r, frmout)
    {
      hide Chained, Distinct, Increasing, Insert, RunLength;
      forceack2 := 2;
      if seqno < nxtrcvno {
        return 0, [];
      }
      r, frmout := StoreAndTake(seqno, frm);
    }

    // The frame is new: into the list, and out with all that is now in order.
    method StoreAndTake(seqno: nat, frm: seq<byte>) returns (r: int, frmout: seq<Node>)
      requires Valid() && seqno >= nxtrcvno && forceack2 == 2
      modifies this`nxtrcvno, rbuf, rbuf.nodes
      ensures Valid()
      ensures HandedUp(old(View()), seqno, frm, r, frmout)
    {
      hide Chained, Distinct, Increasing, Insert, RunLength, HandedUp, Lists;
      ghost var s := View();
      ghost var fp;
      r, fp := StoreFrame(seqno, frm, set n | n in rbuf.nodes);
      if r < 0 {
        NotStored(s, seqno, frm);
        frmout := [];
      } else {
        ghost var es := rbuf.es;
        var nr;
        nr, frmout := TakeRun(fp);
        Advance(nr);
        r := 0;
        Stored(s, seqno, frm, es, nr, frmout);
      }
    }

    method Advance(nr: nat)
      requires Valid()
      modifies this`nxtrcvno
      ensures Valid() && View() == old(View()).(nxtrcv := old(nxtrcvno) + nr)
    {
      hide Lists;
      nxtrcvno := nxtrcvno + nr;
    }

    lemma NotStored(s: Sock, seqno: nat, frm: seq<byte>)
      requires |frm| > MTU && seqno >= s.nxtrcv && s.force == 2 && View() == s.(maxrcv := Max(s.maxrcv, seqno))
      ensures HandedUp(s, seqno, frm, -1, [])
    {
    }

    lemma Stored(s: Sock, seqno: nat, frm: seq<byte>, es: seq<Entry>, nr: nat, frmout: seq<Node>)
      requires |frm| <= MTU && seqno >= s.nxtrcv && s.force == 2 && es == Insert(s.rbuf, Entry(seqno, 0, 0, 0, frm))
      requires nr == RunLength(es, s.nxtrcv) <= |es| && |frmout| == nr && forall i :: 0 <= i < nr ==> frmout[i].frm == es[i].frm
      requires View() == s.(maxrcv := Max(s.maxrcv, seqno), rbuf := es[nr..], nxtrcv := s.nxtrcv + nr)
      ensures HandedUp(s, seqno, frm, 0, frmout)
    {
      hide Insert, RunLength;
    }

    // The outcome of do_datafrm from state s.
    ghost predicate HandedUp(s: Sock, seqno: nat, frm: seq<byte>, r: int, frmout: seq<Node>)
      reads this, sbuf, rbuf, frmout
    {
      var (t, up, ok) := UcpSpec.DoDataFrm(s, seqno, frm);
      && View() == t && (r == 0 <==> ok) && |frmout| == |up|
      && forall i :: 0 <= i < |up| ==> frmout[i].frm == up[i]
    }

    // fp is exactly the nodes of the receive list.
    ghost predicate RecvFrame(fp: set<Node>)
      reads rbuf
    {
      (forall i :: 0 <= i < |rbuf.nodes| ==> rbuf.nodes[i] in fp) && forall n :: n in fp ==> n in rbuf.nodes
    }

    // _rbuf.add
    method StoreFrame(seqno: nat, frm: seq<byte>, ghost fp: set<Node>) returns (r: int, ghost fp': set<Node>)
      requires Valid() && RecvFrame(fp)
      modifies rbuf, fp
      ensures Valid() && View() == old(View()).(maxrcv := Max(old(rbuf.maxseqno), seqno), rbuf := rbuf.es)
      ensures RecvFrame(fp') && fresh(fp' - fp)
      ensures if |frm| > MTU then r == -1 && rbuf.es == old(rbuf.es)
              else r == 0 && rbuf.es == Insert(old(rbuf.es), Entry(seqno, 0, 0, 0, frm))
    {
      hide Chained, Distinct, Increasing, Insert;
      ghost var snodes, rnodes := sbuf.nodes, rbuf.nodes;
      ApartBothWays();
      r := rbuf.Add(seqno, frm);
      fp' := set n | n in rbuf.nodes;
      assert forall i :: 0 <= i < |snodes| ==> snodes[i] !in rnodes;
      sbuf.ValidKept();
    }

    lemma ApartBothWays()
      requires Apart()
      ensures forall i :: 0 <= i < |sbuf.nodes| ==> sbuf.nodes[i] !in rbuf.nodes
    {
    }

    // _rbuf.ackread
    method TakeRun(ghost fp: set<Node>) returns (nr: nat, frmout: seq<Node>)
      requires Valid() && RecvFrame(fp)
      modifies rbuf, fp
      ensures Valid() && View() == old(View()).(rbuf := rbuf.es)
      ensures nr == RunLength(old(rbuf.es), nxtrcvno) && rbuf.es == old(rbuf.es)[nr..]
      ensures |frmout| == nr && forall i :: 0 <= i < nr ==> frmout[i].frm == old(rbuf.es)[i].frm
    {
      hide FrameList.Valid, RunLength;
      ghost var snodes, rnodes := sbuf.nodes, rbuf.nodes;
      ApartBothWays();
      rbuf.NodeEach();
      nr, frmout := rbuf.AckRead(nxtrcvno);
      sbuf.ValidKept();
      forall i | 0 <= i < nr ensures frmout[i].frm == old(rbuf.es)[i].frm {
        assert frmout[i].Get() == old(rbuf.es)[i];
      }
    }

    // The numbers in the data of an ACK frame, read with ss >> no.
    static method ReadNos(d: seq<byte>) returns (nos: seq<nat>)
      ensures nos == DecodeNos(d)
    {
      nos := [];
      var i := 0;
      assert d[0..] == d;
      while i < |d| / 8
        invariant 0 <= i <= |d| / 8
        invariant nos + DecodeNos(d[8 * i..]) == DecodeNos(d)
      {
        var no := UnLE(d[8 * i..8 * i + 8]);
        assert d[8 * i..][..8] == d[8 * i..8 * i + 8] && d[8 * i..][8..] == d[8 * (i + 1)..];
        nos := nos + [no];
        i := i + 1;
      }
    }

    // The ACK branch of dorevc: _sbuf.ack_del(seqno, nos, _ackmaxsndno)
    method DoAck(upto: nat, nos: seq<nat>)
      requires Valid()
      modifies this`ackmaxsndno, sbuf`head, sbuf`tail, sbuf`size, sbuf`nodes, sbuf`es, sbuf.nodes
      ensures Valid() && View() == UcpSpec.DoAck(old(View()), upto, nos)
    {
      hide Lists, AckDel, AckMax;
      var umax := AckQueue(upto, nos);
      ackmaxsndno := umax;
    }

    method AckQueue(upto: nat, nos: seq<nat>) returns (umax: nat)
      requires Lists()
      modifies sbuf`head, sbuf`tail, sbuf`size, sbuf`nodes, sbuf`es, sbuf.nodes
      ensures Lists() && sbuf.es == AckDel(old(sbuf.es), upto, nos) && rbuf.es == old(rbuf.es) && rbuf.maxseqno == old(rbuf.maxseqno)
      ensures umax == AckMax(old(sbuf.es), upto, nos, Max(ackmaxsndno, upto))
    {
      hide Chained, Distinct, Confirmed, AckDel, AckMax, Increasing;
      ghost var snodes, rnodes := sbuf.nodes, rbuf.nodes;
      AckDelRemoves(sbuf.es, upto, nos);
      var nr;
      nr, umax := sbuf.AckDelete(upto, nos, ackmaxsndno);
      assert forall i :: 0 <= i < |rnodes| ==> rnodes[i] !in snodes;
      rbuf.ValidKept();
      StillBelow(old(sbuf.es), sbuf.es);
    }

    lemma StillBelow(es0: seq<Entry>, es: seq<Entry>)
      requires forall n :: Has(es, n) ==> Has(es0, n)
      requires forall i :: 0 <= i < |es0| ==> es0[i].seqno < nxtsndno
      ensures forall i :: 0 <= i < |es| ==> es[i].seqno < nxtsndno
    {
      forall i | 0 <= i < |es| ensures es[i].seqno < nxtsndno {
        assert Has(es, es[i].seqno);
      }
    }

    // One frame of ackex.
    method PackAck(crc: Crc, nos: seq<nat>) returns (f: seq<byte>)
      requires 0 < nxtrcvno <= SEQ_END && |nos| <= MAX_NOS
      ensures f == Encode(crc, Pkg(ssid, nxtrcvno - 1, ACK, 0, EncodeNos(nos)))
    {
      hide Encode, EncodeNos;
      var pkg := new FrmPkg();
      pkg.ussid := ssid;
      pkg.seqno := nxtrcvno - 1;
      pkg.cmd := ACK;
      Store(pkg.data, 0, EncodeNos(nos));
      pkg.datasize := 8 * |nos|;
      assert pkg.data[..pkg.datasize] == EncodeNos(nos);
      var frmout := new byte[MTU];
      var n := pkg.MakePkgOwn(crc, frmout, 0, MTU);
      f := frmout[..n];
    }

    // The loop of ackex: a frame whenever 176 numbers are collected, then one for the rest.
    method PackAcks(crc: Crc, vnos: seq<nat>, ghost s: Sock) returns (out: seq<seq<byte>>)
      requires 0 < nxtrcvno <= SEQ_END && s.ssid == ssid && s.nxtrcv == nxtrcvno
      ensures out == AckFrames(crc, s, vnos)
    {
      hide Packed, AckFrames, Encode, EncodeNos;
      out := [];
      var cur: seq<nat> := [];
      var i := 0;
      NothingPacked(crc, s, vnos);
      while i < |vnos|
        invariant |cur| <= i <= |vnos| && |cur| < MAX_NOS && (i - |cur|) % MAX_NOS == 0
        invariant cur == vnos[i - |cur|..i] && Packed(crc, s, vnos, i - |cur|, out)
      {
        cur := cur + [vnos[i]];
        i := i + 1;
        if |cur| >= MAX_NOS {
          assert cur == vnos[i - |cur|..i];
          var f := PackAck(crc, cur);
          assert f == AckFrame(crc, s, cur);
          PackedMore(crc, s, vnos, i - |cur|, out);
          out := out + [f];
          cur := [];
        }
      }
      assert cur == vnos[i - |cur|..];
      if vnos == [] || |vnos| % MAX_NOS != 0 {
        var f := PackAck(crc, cur);
        PackedLast(crc, s, vnos, i - |cur|, out);
        out := out + [f];
      } else {
        PackedAll(crc, s, vnos, out);
      }
    }

    // The first k numbers, a multiple of 176, are out.
    static ghost predicate Packed(crc: Crc, s: Sock, vnos: seq<nat>, k: nat, out: seq<seq<byte>>)
      requires s.nxtrcv > 0 && k <= |vnos|
    {
      if k < |vnos| || vnos == [] then out + AckFrames(crc, s, vnos[k..]) == AckFrames(crc, s, vnos)
      else out == AckFrames(crc, s, vnos)
    }

    static lemma NothingPacked(crc: Crc, s: Sock, vnos: seq<nat>)
      requires s.nxtrcv > 0
      ensures Packed(crc, s, vnos, 0, [])
    {
      hide AckFrames;
      assert vnos[0..] == vnos;
    }

    static lemma PackedMore(crc: Crc, s: Sock, vnos: seq<nat>, k: nat, out: seq<seq<byte>>)
      requires s.nxtrcv > 0 && k + MAX_NOS <= |vnos| && Packed(crc, s, vnos, k, out)
      ensures Packed(crc, s, vnos, k + MAX_NOS, out + [AckFrame(crc, s, vnos[k..k + MAX_NOS])])
    {
      hide AckFrame;
      var rest := vnos[k..];
      assert rest[..MAX_NOS] == vnos[k..k + MAX_NOS] && rest[MAX_NOS..] == vnos[k + MAX_NOS..];
      assert |rest| == MAX_NOS ==> rest == vnos[k..k + MAX_NOS];
    }

    static lemma PackedLast(crc: Crc, s: Sock, vnos: seq<nat>, k: nat, out: seq<seq<byte>>)
      requires s.nxtrcv > 0 && k <= |vnos| < k + MAX_NOS && Packed(crc, s, vnos, k, out) && (k < |vnos| || vnos == [])
      ensures out + [AckFrame(crc, s, vnos[k..])] == AckFrames(crc, s, vnos)
    {
    }

    static lemma PackedAll(crc: Crc, s: Sock, vnos: seq<nat>, out: seq<seq<byte>>)
      requires s.nxtrcv > 0 && vnos != [] && Packed(crc, s, vnos, |vnos|, out)
      ensures out == AckFrames(crc, s, vnos)
    {
      hide AckFrames;
    }

    // ackex
    method AckEx(crc: Crc) returns (out: seq<seq<byte>>)
      requires Valid() && nxtrcvno <= SEQ_END
      modifies this`forceack2
      ensures Valid() && (View(), out) == UcpSpec.AckEx(crc, old(View()))
    {
      hide AckFrames;
      if forceack2 <= 0 {
        return [];
      }
      forceack2 := forceack2 - 1;
      var vnos := rbuf.GetRecvAcks(nxtrcvno);
      out := PackAcks(crc, vnos, old(View()));
    }

    // The ACK branch of dorevc: decode the frame in place, read the numbers, delete what they confirm.
    method DoAckFrm(crc: Crc, buf: array<byte>, addr: nat, size: nat) returns (r: int)
      requires Valid() && size <= buf.Length
      modifies this`ackmaxsndno, sbuf`head, sbuf`tail, sbuf`size, sbuf`nodes, sbuf`es, sbuf.nodes, buf
      ensures Valid()
      ensures match Parse(crc, old(buf[..size]))
              case None => r == -1 && View() == old(View())
              case Some(p) => r == 0 && View() == UcpSpec.DoAck(old(View()), p.seqno, DecodeNos(p.data))
    {
      hide Parse, Chained, Distinct, Increasing;
      var seqno, nos;
      r, seqno, nos := ReadAckFrm(crc, buf, addr, size);
      if r == 0 {
        sbuf.ValidKept();
        rbuf.ValidKept();
        DoAck(seqno, nos);
      }
    }

    static method ReadAckFrm(crc: Crc, buf: array<byte>, addr: nat, size: nat) returns (r: int, seqno: nat, nos: seq<nat>)
      requires size <= buf.Length
      modifies buf
      ensures match Parse(crc, old(buf[..size]))
              case None => r == -1
              case Some(p) => r == 0 && seqno == p.seqno && nos == DecodeNos(p.data)
    {
      hide Parse;
      var pkgd := new FrmPkg();
      r := pkgd.ParsePkg(crc, buf, addr, size);
      seqno, nos := pkgd.seqno, [];
      if r == 0 {
        nos := ReadNos(pkgd.data[..pkgd.datasize]);
      }
    }

    // onrecv for an established connection, then dorevc: ignore what does not decode or belongs to
    // another session, store data, process ACKs.
    method OnRecv(crc: Crc, buf: array<byte>, addr: nat, size: nat) returns (r: int, frmout: seq<Node>)
      requires Valid() && size <= buf.Length
      modifies this, sbuf, sbuf.nodes, rbuf, rbuf.nodes, buf
      ensures Valid() && Answered(crc, old(View()), old(buf[..size]), r, frmout)
    {
      hide Parse, ParseHead, Chained, Distinct, Increasing, UcpSpec.DoAck, UcpSpec.DoDataFrm, DecodeNos;
      var ok, ussid, seqno, cmd := ReadHead(crc, buf, size);
      if !ok || ussid != this.ssid {
        return 0, [];
      }
      if cmd == DAT || cmd == DATR {
        r, frmout := DoDataFrm(crc, seqno, buf[..size]);
      } else if cmd == ACK {
        r := DoAckFrm(crc, buf, addr, size);
        frmout := [];
      } else {
        r, frmout := 0, [];
      }
    }

    static method ReadHead(crc: Crc, buf: array<byte>, size: nat) returns (ok: bool, ussid: bv32, seqno: nat, cmd: byte)
      requires size <= buf.Length
      ensures ok == ParseHead(crc, buf[..size]).Some?
      ensures ok ==> var h := ParseHead(crc, buf[..size]).value; ussid == h.ussid && seqno == h.seqno && cmd == h.cmd
    {
      hide ParseHead;
      var pkg := new FrmPkg();
      var r := pkg.ParsePkgHead(crc, buf, size);
      ok, ussid, seqno, cmd := r == 0, pkg.ussid, pkg.seqno, pkg.cmd;
    }

    // The outcome of onrecv on frame f from state s.
    ghost predicate Answered(crc: Crc, s: Sock, f: seq<byte>, r: int, frmout: seq<Node>)
      reads this, sbuf, rbuf, frmout
    {
      var (t, up, alive) := UcpSpec.OnRecv(crc, s, f);
      && View() == t && (r == 0 <==> alive) && |frmout| == |up|
      && forall i :: 0 <= i < |up| ==> frmout[i].frm == up[i]
    }
  }
}
