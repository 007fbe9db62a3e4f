/** Once the frames still in the send list get through, both ends agree and the next ACK empties the
    send list; and from every reachable state such a schedule exists. */
module UcpConvergence {
  import opened Wrappers
  import opened Bytes
  import opened UcpFrame
  import opened UcpFrames
  import opened UcpSpec
  import opened UcpProtocol

  // Somewhere in evs, B receives a frame that carries chunk n.
  ghost predicate Delivers(crc: Crc, ssid: bv32, chunks: seq<seq<byte>>, evs: seq<Event>, n: nat) {
    exists i :: 0 <= i < |evs| && Brings(crc, ssid, chunks, evs[i], n)
  }

  ghost predicate Brings(crc: Crc, ssid: bv32, chunks: seq<seq<byte>>, e: Event, n: nat) {
    !e.atA && e.act.Recv? && Carries(crc, ssid, chunks, n, e.act.f)
  }

  predicate Quiet(e: Event) { !(e.atA && e.act.Send?) }

  lemma RecvGrows(crc: Crc, x: Peer, y: Peer, fwd: set<seq<byte>>, back: set<seq<byte>>, f: seq<byte>)
    requires BothWays(crc, x, y, fwd, back) && f in back
    ensures var s := OnRecv(crc, x.sock, f).0;
            && (forall n: nat :: Received(x.sock, n) ==> Received(s, n))
            && (forall n :: Carries(crc, x.sock.ssid, y.chunks, n, f) ==> Received(s, n))
  {
    hide Parse, SenderInv, ReceiverInv, OnRecv, DoDataFrm, Has, NoLoss, DataOrAck, HonestAck, DecodeNos, AckDel, AckMax;
    assert DataOrAck(crc, y.sock.ssid, y.chunks, f);
    OnRecvCases(crc, x.sock, y.chunks, f);
    var p := Parse(crc, f).value;
    if p.cmd != ACK {
      DataReceived(crc, y.chunks, x, p.seqno, f);
    }
  }

  // B only ever gains numbers, and gains the number of a frame it receives.
  lemma StepGrows(crc: Crc, s: Sys, e: Event)
    requires Inv(crc, s) && CanStep(s, e)
    ensures var t := Step(crc, s, e);
            && (forall n: nat :: Received(s.b.sock, n) ==> Received(t.b.sock, n))
            && (forall n :: Brings(crc, s.b.sock.ssid, s.a.chunks, e, n) ==> Received(t.b.sock, n))
            && t.b.sock.ssid == s.b.sock.ssid && (Quiet(e) ==> t.a.chunks == s.a.chunks)
  {
    hide Parse, SenderInv, ReceiverInv, NoLoss, DataOrAck, HonestAck, OnRecv, Has, Carries, SendChunks, Chunks, ResendPass, AckFrames, RecvAcks;
    StepKeeps(crc, s, e);
    if !e.atA {
      match e.act
      case Recv(f) => RecvGrows(crc, s.b, s.a, s.toA, s.toB, f);
      case Send(data, clock) => SendKeepsReceiving(crc, s.b, data, clock);
      case _ =>
    }
  }

  lemma SendKeepsReceiving(crc: Crc, x: Peer, data: seq<byte>, clock: nat -> int)
    requires SenderInv(crc, x) && x.sock.nxtsnd + |Chunks(data)| <= SEQ_END
    ensures var s := SendBytes(crc, x.sock, data, clock).0; s.nxtrcv == x.sock.nxtrcv && s.rbuf == x.sock.rbuf
  {
    hide SenderInv, SendChunks, Chunks, AllData, Has;
    var cs := Chunks(data);
    assert forall i :: 0 <= i < |cs| ==> cs[i] in cs;
    SendChunksKeepsFresh(crc, x, cs, clock);
  }

  lemma {:induction false} RunReceives(crc: Crc, s: Sys, evs: seq<Event>, n: nat)
    requires Inv(crc, s) && Feasible(crc, s, evs) && forall i :: 0 <= i < |evs| ==> Quiet(evs[i])
    requires Received(s.b.sock, n) || Delivers(crc, s.b.sock.ssid, s.a.chunks, evs, n)
    ensures Run(crc, s, evs).a.chunks == s.a.chunks && Received(Run(crc, s, evs).b.sock, n)
    decreases |evs|
  {
    hide Inv, Step, CanStep, Brings, Received, Quiet;
    if evs != [] {
      var t := Step(crc, s, evs[0]);
      StepGrows(crc, s, evs[0]);
      StepKeeps(crc, s, evs[0]);
      if !Received(t.b.sock, n) {
        var i :| 0 <= i < |evs| && Brings(crc, s.b.sock.ssid, s.a.chunks, evs[i], n);
        assert evs[1..][i - 1] == evs[i];
      }
      RunReceives(crc, t, evs[1..], n);
    }
  }

  lemma {:induction false} RunQuiet(crc: Crc, s: Sys, evs: seq<Event>)
    requires Inv(crc, s) && Feasible(crc, s, evs) && forall i :: 0 <= i < |evs| ==> Quiet(evs[i])
    ensures Run(crc, s, evs).a.chunks == s.a.chunks && Run(crc, s, evs).b.sock.ssid == s.b.sock.ssid
    decreases |evs|
  {
    hide Inv, Step, CanStep, Received, Quiet, Brings;
    if evs != [] {
      StepGrows(crc, s, evs[0]);
      StepKeeps(crc, s, evs[0]);
      RunQuiet(crc, Step(crc, s, evs[0]), evs[1..]);
    }
  }

  // Both ends agree: everything accepted at A was received and handed up at B.
  ghost predicate Settled(crc: Crc, s: Sys) {
    && s.b.sock.rbuf == [] && s.b.sock.nxtrcv == s.a.sock.nxtsnd
    && Payloads(crc, s.b.delivered) == s.a.chunks
  }

  lemma AllReceivedSettles(crc: Crc, s: Sys)
    requires Inv(crc, s)
    requires forall n :: 1 <= n < s.a.sock.nxtsnd ==> Received(s.b.sock, n)
    ensures Settled(crc, s)
  {
    hide Parse, SenderInv, NoLoss, DataOrAck, HonestAck, Payloads;
    ChunksFit(crc, s.a);
    DeliveredPayloads(crc, s.a, s.b);
    NextIsMissing(crc, s.a.chunks, s.b);
  }

  lemma NextIsMissing(crc: Crc, chunks: seq<seq<byte>>, y: Peer)
    requires ReceiverInv(crc, chunks, y)
    ensures !Received(y.sock, y.sock.nxtrcv)
    ensures y.sock.nxtrcv == |chunks| + 1 ==> y.sock.rbuf == []
  {
    hide Parse;
    if y.sock.rbuf != [] {
      assert Carries(crc, y.sock.ssid, chunks, y.sock.rbuf[0].seqno, y.sock.rbuf[0].frm);
    }
  }

  // Convergence from A to B, from any state with the invariant.
  lemma DeliveredSettles(crc: Crc, s: Sys, evs: seq<Event>)
    requires Inv(crc, s) && Feasible(crc, s, evs) && forall i :: 0 <= i < |evs| ==> Quiet(evs[i])
    requires forall n :: Has(s.a.sock.sbuf, n) ==> Delivers(crc, s.b.sock.ssid, s.a.chunks, evs, n)
    ensures Settled(crc, Run(crc, s, evs))
  {
    RunQuiet(crc, s, evs);
    RunKeepsInv(crc, s, evs);
    var t := Run(crc, s, evs);
    hide Parse, ReceiverInv, SenderInv, DataOrAck, HonestAck, Run, Feasible, Delivers, Has, Received, Settled, Quiet;
    ChunksFit(crc, s.a);
    ChunksFit(crc, t.a);
    forall n | 1 <= n < t.a.sock.nxtsnd ensures Received(t.b.sock, n) {
      assert Has(s.a.sock.sbuf, n) || Received(s.b.sock, n);
      RunReceives(crc, s, evs, n);
    }
    AllReceivedSettles(crc, t);
  }

  lemma {:induction false} AckAllDeletes(es: seq<Entry>, upto: nat, nos: seq<nat>)
    requires forall i :: 0 <= i < |es| ==> es[i].seqno <= upto
    ensures AckDel(es, upto, nos) == []
  {
    if es != [] {
      AckAllDeletes(es[1..], upto, nos);
    }
  }

  // ---- The ACK that answers

  // B has yet to answer twice what it has now, or its answer is on the network already.
  ghost predicate Answered(crc: Crc, s: Sys) {
    var y := s.b.sock;
    y.nxtrcv > 0 && (y.force >= 2 || y.rbuf != [] || y.nxtrcv == 1 || AckFrame(crc, y, []) in s.toA)
  }

  lemma {:induction false} SendChunksAnswers(crc: Crc, s: Sock, cs: seq<seq<byte>>, clock: nat -> int, out: seq<seq<byte>>)
    ensures var t := SendChunks(crc, s, cs, clock, out).0; t.nxtrcv == s.nxtrcv && t.rbuf == s.rbuf && t.force == s.force && t.ssid == s.ssid
    decreases |cs|
  {
    hide DataFrame;
    if cs != [] {
      var f := DataFrame(crc, s.ssid, s.nxtsnd, cs[0]);
      SendChunksAnswers(crc, s.(nxtsnd := s.nxtsnd + 1, sbuf := s.sbuf + [Entry(s.nxtsnd, 0, 0, clock(s.nxtsnd), f)]), cs[1..], clock, out + [f]);
    }
  }

  // What counts for the answer stays, or a new answer is due, or it has just been given.
  lemma ActAnswers(crc: Crc, p: Peer, a: Action)
    requires p.sock.nxtrcv > 0
    ensures var (q, out) := Act(crc, p, a);
            && (q.sock.nxtrcv >= p.sock.nxtrcv)
            && (q.sock.force == 2 || (q.sock.nxtrcv == p.sock.nxtrcv && q.sock.rbuf == p.sock.rbuf && q.sock.ssid == p.sock.ssid))
            && (q.sock.force >= 2 || q.sock.force == p.sock.force || q.sock.rbuf != [] || AckFrame(crc, q.sock, []) in Elems(out))
  {
    hide Parse, ParseHead, DecodeNos, SendChunks, Chunks, AckDel, AckMax, ResendPass, Insert, RunLength, Encode;
    match a
    case Send(data, clock) => SendChunksAnswers(crc, p.sock, Chunks(data), clock, []);
    case ResendAct(_, _, _, _) =>
    case AckAct =>
      if p.sock.force > 0 && p.sock.rbuf == [] {
        var out := Act(crc, p, a).1;
        assert out == [AckFrame(crc, p.sock, [])];
        assert AckFrame(crc, p.sock, []) == out[0];
      }
    case Recv(_) =>
  }

  lemma StepAnswers(crc: Crc, s: Sys, e: Event)
    requires CanStep(s, e) && Answered(crc, s)
    ensures Answered(crc, Step(crc, s, e))
  {
    hide Act, Encode;
    if !e.atA {
      ActAnswers(crc, s.b, e.act);
    }
  }

  lemma {:induction false} RunAnswers(crc: Crc, s: Sys, evs: seq<Event>)
    requires Feasible(crc, s, evs) && Answered(crc, s)
    ensures Answered(crc, Run(crc, s, evs))
    decreases |evs|
  {
    hide Step, CanStep, Answered;
    if evs != [] {
      StepAnswers(crc, s, evs[0]);
      RunAnswers(crc, Step(crc, s, evs[0]), evs[1..]);
    }
  }

  // ackex at B and the delivery of the frame that answers a settled state.
  function NextAck(crc: Crc, s: Sys): seq<Event> {
    if s.b.sock.nxtrcv == 0 then [] else [Event(false, AckAct), Event(true, Recv(AckFrame(crc, s.b.sock, [])))]
  }

  // The next ACK can be delivered, and it empties the send list.
  ghost predicate Empties(crc: Crc, s: Sys, evs: seq<Event>) {
    Feasible(crc, s, evs) && Run(crc, s, evs).a.sock.sbuf == [] && Settled(crc, Run(crc, s, evs))
  }

  // The ACK of this state is due or on the network.
  ghost predicate AckAtHand(crc: Crc, s: Sys) {
    s.b.sock.nxtrcv > 0 && (s.b.sock.force > 0 || AckFrame(crc, s.b.sock, []) in s.toA)
  }

  // In a settled state that answers, the next ACK delivered empties the send list.
  lemma AnswerEmpties(crc: Crc, s: Sys)
    requires Inv(crc, s) && Settled(crc, s) && Answered(crc, s) && s.a.sock.sbuf != []
    ensures AckAtHand(crc, s) && Empties(crc, s, NextAck(crc, s))
  {
    hide DirInv, AckFrame, Feasible, Run, Payloads, Act, OnRecv, Empties;
    BeyondFirst(crc, s);
    var f := AckFrame(crc, s.b.sock, []);
    var e0, e1 := Event(false, AckAct), Event(true, Recv(f));
    AckActAnswers(crc, s);
    var u := Step(crc, s, e0);
    AckTaken(crc, s, u);
    RunTwo(crc, s, e0, e1);
    EmptiesBy(crc, s, Step(crc, u, e1), NextAck(crc, s), e0, e1);
  }

  lemma BeyondFirst(crc: Crc, s: Sys)
    requires Inv(crc, s) && s.a.sock.sbuf != []
    ensures s.a.sock.nxtsnd > 1 && s.a.sock.nxtrcv > 0 && s.b.sock.nxtrcv > 0
  {
    hide Parse, NoLoss, DataOrAck, HonestAck, Carries;
    FirstQueued(crc, s.a);
  }

  // The frame of a settled state, delivered when B has gone on at most in its counter.
  lemma AckTaken(crc: Crc, s: Sys, u: Sys)
    requires Inv(crc, s) && Settled(crc, s) && s.b.sock.nxtrcv > 0 && s.a.sock.nxtrcv > 0
    requires u.a == s.a && u.b == s.b.(sock := s.b.sock.(force := u.b.sock.force)) && AckFrame(crc, s.b.sock, []) in u.toA
    ensures var e := Event(true, Recv(AckFrame(crc, s.b.sock, [])));
            CanStep(u, e) && Step(crc, u, e).a.sock.sbuf == [] && Settled(crc, Step(crc, u, e))
  {
    hide DirInv, AckFrame, Payloads, OnRecv;
    AckFrameReceived(crc, s);
  }

  lemma EmptiesBy(crc: Crc, s: Sys, v: Sys, evs: seq<Event>, e0: Event, e1: Event)
    requires evs == [e0, e1] && Feasible(crc, s, [e0, e1]) && Run(crc, s, [e0, e1]) == v && v.a.sock.sbuf == [] && Settled(crc, v)
    ensures Empties(crc, s, evs)
  {
    hide Run, Settled, Feasible;
  }

  // ackex changes its counter alone, and its frame is on the network after it.
  lemma AckActAnswers(crc: Crc, s: Sys)
    requires Settled(crc, s) && Answered(crc, s) && s.b.sock.nxtrcv > 1 && s.a.sock.nxtrcv > 0
    ensures var e := Event(false, AckAct); var f := AckFrame(crc, s.b.sock, []);
            && CanStep(s, e) && f in Step(crc, s, e).toA && Step(crc, s, e).a == s.a
            && Step(crc, s, e).b == s.b.(sock := s.b.sock.(force := Step(crc, s, e).b.sock.force))
  {
    hide AckFrame, Payloads;
    var f := AckFrame(crc, s.b.sock, []);
    assert f in Elems([f]) by {
      assert [f][0] == f;
    }
  }

  lemma RunTwo(crc: Crc, s: Sys, e0: Event, e1: Event)
    requires CanStep(s, e0) && CanStep(Step(crc, s, e0), e1)
    ensures Feasible(crc, s, [e0, e1]) && Run(crc, s, [e0, e1]) == Step(crc, Step(crc, s, e0), e1)
  {
    hide Step, CanStep;
    var u := Step(crc, s, e0);
    assert [e0, e1][1..] == [e1] && [e1][1..] == [];
    assert Feasible(crc, u, [e1]);
    assert Run(crc, u, [e1]) == Step(crc, u, e1);
  }

  lemma AckFrameReceived(crc: Crc, s: Sys)
    requires Inv(crc, s) && Settled(crc, s)
    ensures var f := AckFrame(crc, s.b.sock, []);
            var (x, up, ok) := OnRecv(crc, s.a.sock, f);
            x.sbuf == [] && x == s.a.sock.(sbuf := [], ackmax := x.ackmax) && up == []
  {
    hide Parse, ReceiverInv, NoLoss, DataOrAck, HonestAck, Payloads, AckFrame, OnRecv, Increasing;
    ChunksFit(crc, s.a);
    var f := AckFrame(crc, s.b.sock, []);
    AckFrameHonest(crc, s.b.sock, []);
    AckDataOrAck(crc, s.a.sock.ssid, s.a.chunks, s.b.sock, f);
    OnRecvCases(crc, s.a.sock, s.a.chunks, f);
    forall i | 0 <= i < |s.a.sock.sbuf| ensures s.a.sock.sbuf[i].seqno <= s.b.sock.nxtrcv - 1 {
      assert Carries(crc, s.a.sock.ssid, s.a.chunks, s.a.sock.sbuf[i].seqno, s.a.sock.sbuf[i].frm);
    }
    AckAllDeletes(s.a.sock.sbuf, s.b.sock.nxtrcv - 1, []);
  }

  lemma AckDataOrAck(crc: Crc, ssid: bv32, chunks: seq<seq<byte>>, y: Sock, f: seq<byte>)
    requires Parse(crc, f).Some? && Parse(crc, f).value.cmd == ACK && Parse(crc, f).value.ussid == ssid
    ensures DataOrAck(crc, ssid, chunks, f)
  {
    hide Parse;
  }

  // ---- A schedule that settles always exists

  // The frames of the send list have been put on the network.
  ghost predicate Sent(es: seq<Entry>, w: set<seq<byte>>) {
    forall i :: 0 <= i < |es| ==> es[i].frm in w
  }

  ghost predicate OnWire(s: Sys) {
    Sent(s.a.sock.sbuf, s.toB) && Sent(s.b.sock.sbuf, s.toA)
  }

  lemma {:induction false} SendChunksSent(crc: Crc, s: Sock, cs: seq<seq<byte>>, clock: nat -> int, out: seq<seq<byte>>, w: set<seq<byte>>)
    requires Sent(s.sbuf, w + Elems(out))
    ensures var (s', out') := SendChunks(crc, s, cs, clock, out); Sent(s'.sbuf, w + Elems(out'))
    decreases |cs|
  {
    hide Encode;
    if cs != [] {
      var f := DataFrame(crc, s.ssid, s.nxtsnd, cs[0]);
      var s1 := s.(nxtsnd := s.nxtsnd + 1, sbuf := s.sbuf + [Entry(s.nxtsnd, 0, 0, clock(s.nxtsnd), f)]);
      assert (out + [f])[|out|] == f;
      assert f in Elems(out + [f]);
      assert forall g :: g in Elems(out) ==> g in Elems(out + [f]);
      SendChunksSent(crc, s1, cs[1..], clock, out + [f], w);
    }
  }

  lemma ActSent(crc: Crc, p: Peer, a: Action, w: set<seq<byte>>)
    requires p.sock.nxtrcv > 0 && Sent(p.sock.sbuf, w)
    ensures var (p', out) := Act(crc, p, a); Sent(p'.sock.sbuf, w + Elems(out))
  {
    hide Parse, ParseHead, DecodeNos, SendChunks, Chunks, AckDel, AckMax, ResendPass, Insert, RunLength, Due;
    match a
    case Send(data, clock) =>
      SendChunksSent(crc, p.sock, Chunks(data), clock, [], w);
    case ResendAct(now, delta, base, budget) =>
      ResendPassKeeps(p.sock.sbuf, 0, ResendArgs(now, p.sock.ackmax, delta, base), budget, []);
    case AckAct =>
    case Recv(f) =>
      var s := OnRecv(crc, p.sock, f).0;
      if s.sbuf != p.sock.sbuf {
        AckDelSent(p.sock.sbuf, Parse(crc, f).value.seqno, DecodeNos(Parse(crc, f).value.data), w);
      }
  }

  lemma AckDelSent(es: seq<Entry>, upto: nat, nos: seq<nat>, w: set<seq<byte>>)
    requires Sent(es, w)
    ensures Sent(AckDel(es, upto, nos), w)
  {
    hide AckDel;
    var r := AckDel(es, upto, nos);
    forall i | 0 <= i < |r| ensures r[i].frm in w {
      assert r[i] in r;
      AckDelKeepsFrames(es, upto, nos, r[i]);
      var y :| y in es && y.seqno == r[i].seqno && y.frm == r[i].frm;
    }
  }

  lemma {:induction false} RunOnWire(crc: Crc, s: Sys, evs: seq<Event>)
    requires OnWire(s) && Feasible(crc, s, evs)
    ensures OnWire(Run(crc, s, evs))
    decreases |evs|
  {
    hide Act;
    if evs != [] {
      if evs[0].atA {
        ActSent(crc, s.a, evs[0].act, s.toB);
      } else {
        ActSent(crc, s.b, evs[0].act, s.toA);
      }
      RunOnWire(crc, Step(crc, s, evs[0]), evs[1..]);
    }
  }

  // Deliver every frame of A's send list at B, oldest first.
  function Deliveries(es: seq<Entry>): (evs: seq<Event>)
    ensures |evs| == |es|
    ensures forall i :: 0 <= i < |es| ==> evs[i] == Event(false, Recv(es[i].frm))
  {
    seq(|es|, i requires 0 <= i < |es| => Event(false, Recv(es[i].frm)))
  }

  lemma {:induction false} DeliveriesFeasible(crc: Crc, s: Sys, es: seq<Entry>)
    requires Inv(crc, s) && Sent(es, s.toB)
    ensures Feasible(crc, s, Deliveries(es))
    decreases |es|
  {
    hide Inv, Step, CanStep;
    if es != [] {
      var e := Event(false, Recv(es[0].frm));
      DeliveryStep(crc, s, es[0].frm);
      DeliveriesFeasible(crc, Step(crc, s, e), es[1..]);
      assert Deliveries(es)[1..] == Deliveries(es[1..]);
    }
  }

  lemma DeliveryStep(crc: Crc, s: Sys, f: seq<byte>)
    requires Inv(crc, s) && f in s.toB
    ensures var e := Event(false, Recv(f)); CanStep(s, e) && Inv(crc, Step(crc, s, e)) && Step(crc, s, e).toB == s.toB
  {
    InvCanStep(crc, s);
    StepKeeps(crc, s, Event(false, Recv(f)));
  }

  // Deliveries leave the sender alone.
  lemma {:induction false} DeliveriesKeepSender(crc: Crc, s: Sys, es: seq<Entry>)
    requires Feasible(crc, s, Deliveries(es))
    ensures Run(crc, s, Deliveries(es)).a == s.a
    decreases |es|
  {
    hide OnRecv;
    if es != [] {
      assert Deliveries(es)[1..] == Deliveries(es[1..]);
      DeliveriesKeepSender(crc, Step(crc, s, Deliveries(es)[0]), es[1..]);
    }
  }

  lemma {:induction false} RunConcat(crc: Crc, s: Sys, x: seq<Event>, y: seq<Event>)
    requires Feasible(crc, s, x) && Feasible(crc, Run(crc, s, x), y)
    ensures Feasible(crc, s, x + y) && Run(crc, s, x + y) == Run(crc, Run(crc, s, x), y)
    decreases |x|
  {
    hide Step, CanStep;
    if x == [] {
      assert x + y == y;
    } else {
      assert (x + y)[1..] == x[1..] + y;
      RunConcat(crc, Step(crc, s, x[0]), x[1..], y);
    }
  }

  // The frames of the send list, delivered, are all that is missing.
  lemma RoundSettles(crc: Crc, s: Sys)
    requires Inv(crc, s) && OnWire(s)
    ensures Feasible(crc, s, Deliveries(s.a.sock.sbuf)) && Settled(crc, Run(crc, s, Deliveries(s.a.sock.sbuf)))
  {
    hide Parse, ReceiverInv, NoLoss, DataOrAck, HonestAck, Run, Settled, Feasible;
    var es := s.a.sock.sbuf;
    var round := Deliveries(es);
    DeliveriesFeasible(crc, s, es);
    forall n | Has(es, n) ensures Delivers(crc, s.b.sock.ssid, s.a.chunks, round, n) {
      var i :| 0 <= i < |es| && es[i].seqno == n;
      assert Carries(crc, s.a.sock.ssid, s.a.chunks, es[i].seqno, es[i].frm);
      assert Brings(crc, s.b.sock.ssid, s.a.chunks, round[i], n);
    }
    DeliveredSettles(crc, s, round);
  }

  // ---- Both directions

  // The system and its events seen from the sending side.
  function Seen(s: Sys, fromA: bool): Sys { if fromA then s else Mirror(s) }

  function Flip(e: Event): Event { Event(!e.atA, e.act) }

  function SeenEvents(evs: seq<Event>, fromA: bool): (r: seq<Event>)
    ensures |r| == |evs| && forall i :: 0 <= i < |evs| ==> r[i] == if fromA then evs[i] else Flip(evs[i])
  {
    if fromA then evs else seq(|evs|, i requires 0 <= i < |evs| => Flip(evs[i]))
  }

  lemma FlipStep(crc: Crc, s: Sys, e: Event)
    requires CanStep(s, e)
    ensures CanStep(Mirror(s), Flip(e)) && Step(crc, Mirror(s), Flip(e)) == Mirror(Step(crc, s, e))
  {
    hide Act;
  }

  // A run seen from the other side is a run.
  lemma {:induction false} SeenRun(crc: Crc, s: Sys, evs: seq<Event>, fromA: bool)
    requires Feasible(crc, s, evs)
    ensures Feasible(crc, Seen(s, fromA), SeenEvents(evs, fromA))
    ensures Run(crc, Seen(s, fromA), SeenEvents(evs, fromA)) == Seen(Run(crc, s, evs), fromA)
    decreases |evs|
  {
    hide Step, CanStep, Mirror, Flip;
    if evs != [] && !fromA {
      FlipStep(crc, s, evs[0]);
      SeenRun(crc, Step(crc, s, evs[0]), evs[1..], fromA);
      assert SeenEvents(evs, fromA)[1..] == SeenEvents(evs[1..], fromA);
    }
  }

  // What holds in every reachable state, from either side.
  lemma Reachable(crc: Crc, ssid: bv32, evs: seq<Event>, fromA: bool)
    requires Feasible(crc, NewSys(ssid), evs)
    ensures var s := Seen(Run(crc, NewSys(ssid), evs), fromA); Inv(crc, s) && OnWire(s) && Answered(crc, s)
  {
    SeenRun(crc, NewSys(ssid), evs, fromA);
    var es := SeenEvents(evs, fromA);
    assert Seen(NewSys(ssid), fromA) == NewSys(ssid);
    InvAtStart(crc, ssid);
    assert Answered(crc, NewSys(ssid));
    hide Inv, Step, CanStep, Run, Feasible, Answered;
    RunKeepsInv(crc, NewSys(ssid), es);
    RunOnWire(crc, NewSys(ssid), es);
    RunAnswers(crc, NewSys(ssid), es);
  }

  /** In every reachable state, and either direction, where all has arrived and frames are still unacknowledged:
      the ACK of that state is due or on the network, and delivering it empties the send list. */
  lemma NextAckEmpties(crc: Crc, ssid: bv32, evs: seq<Event>, fromA: bool)
    requires Feasible(crc, NewSys(ssid), evs)
    requires var s := Seen(Run(crc, NewSys(ssid), evs), fromA); Settled(crc, s) && s.a.sock.sbuf != []
    ensures var s := Seen(Run(crc, NewSys(ssid), evs), fromA); AckAtHand(crc, s) && Empties(crc, s, NextAck(crc, s))
  {
    Reachable(crc, ssid, evs, fromA);
    hide *;
    AnswerEmpties(crc, Seen(Run(crc, NewSys(ssid), evs), fromA));
  }

  // The sender gives out no new data, and every number in its send list is delivered somewhere.
  ghost predicate Catching(crc: Crc, s: Sys, evs: seq<Event>) {
    && (forall i :: 0 <= i < |evs| ==> Quiet(evs[i]))
    && (forall n :: Has(s.a.sock.sbuf, n) ==> Delivers(crc, s.b.sock.ssid, s.a.chunks, evs, n))
  }

  /** Everything accepted has been received and handed up, and when frames are still unacknowledged, the ACK
      of that state is due or on the network, and delivering it empties the send list. */
  ghost predicate Converged(crc: Crc, t: Sys) {
    Settled(crc, t) && (t.a.sock.sbuf != [] ==> AckAtHand(crc, t) && Empties(crc, t, NextAck(crc, t)))
  }

  /** Convergence, in either direction: from every reachable state, whatever else happens on both sides short
      of new data at the sender, once every number in the send list has been delivered - in any order, with
      any repetition - the reorder list is empty, _nxtrcvno is the sender's _nxtsndno, everything accepted has
      been handed up, and delivering the next ACK empties the send list. */
  lemma Convergence(crc: Crc, ssid: bv32, before: seq<Event>, evs: seq<Event>, fromA: bool)
    requires Feasible(crc, NewSys(ssid), before) && Feasible(crc, Run(crc, NewSys(ssid), before), evs)
    requires Catching(crc, Seen(Run(crc, NewSys(ssid), before), fromA), SeenEvents(evs, fromA))
    ensures Converged(crc, Seen(Run(crc, Run(crc, NewSys(ssid), before), evs), fromA))
  {
    var s := Run(crc, NewSys(ssid), before);
    Reachable(crc, ssid, before, fromA);
    SeenRun(crc, s, evs, fromA);
    var v, es := Seen(s, fromA), SeenEvents(evs, fromA);
    hide Run, Feasible, Inv, Settled, Answered, OnWire, Quiet, Delivers, Has, Seen, SeenEvents, Empties, AckFrame, AckAtHand, NextAck;
    DeliveredSettles(crc, v, es);
    RunKeepsInv(crc, v, es);
    RunAnswers(crc, v, es);
    var t := Run(crc, v, es);
    if t.a.sock.sbuf != [] {
      AnswerEmpties(crc, t);
    }
  }

  // The deliveries of the send list, and behind them the next ACK.
  ghost predicate RoundConverges(crc: Crc, s: Sys) {
    var round := Deliveries(s.a.sock.sbuf);
    && Feasible(crc, s, round) && Settled(crc, Run(crc, s, round))
    && (s.a.sock.sbuf != [] ==> Empties(crc, s, round + NextAck(crc, Run(crc, s, round))))
  }

  /** From every reachable state, in either direction, delivering what is in the send list settles the
      direction, whatever the network did before; and with frames unacknowledged, that round followed by
      ackex and the delivery of its frame leaves the send list empty. */
  lemma CanAlwaysSettle(crc: Crc, ssid: bv32, evs: seq<Event>, fromA: bool)
    requires Feasible(crc, NewSys(ssid), evs)
    ensures RoundConverges(crc, Seen(Run(crc, NewSys(ssid), evs), fromA))
  {
    Reachable(crc, ssid, evs, fromA);
    var s := Seen(Run(crc, NewSys(ssid), evs), fromA);
    var round := Deliveries(s.a.sock.sbuf);
    hide Run, Feasible, Inv, Settled, Answered, OnWire, Seen, AckFrame, Deliveries, NextAck, AckAtHand;
    RoundSettles(crc, s);
    RunKeepsInv(crc, s, round);
    RunAnswers(crc, s, round);
    DeliveriesKeepSender(crc, s, s.a.sock.sbuf);
    var t := Run(crc, s, round);
    if s.a.sock.sbuf != [] {
      AnswerEmpties(crc, t);
      RunConcat(crc, s, round, NextAck(crc, t));
    }
  }
}
