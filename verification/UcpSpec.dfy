/** What one ucpsocket does, as functions on its state: sendbytes, resend, dorevc, do_datafrm, ackex. */
module UcpSpec {
  import opened Wrappers
  import opened Bytes
  import opened UcpFrame
  import opened UcpFrames

  const MAX_NOS := 176   // (SIZE_UDPCONTENT - 16) / sizeof(seqno_t), numbers in one ACK frame

  datatype Sock = Sock(
    ssid: bv32,
    nxtsnd: nat,        // _nxtsndno
    nxtrcv: nat,        // _nxtrcvno
    ackmax: nat,        // _ackmaxsndno
    force: int,         // _forceack2
    sbuf: seq<Entry>,   // sent, not acknowledged
    rbuf: seq<Entry>,   // received out of order
    maxrcv: nat)        // _rbuf._maxseqno

  function NewSock(ssid: bv32): Sock {
    Sock(ssid, 1, 1, 0, 0, [], [], 0)
  }

  // ---- sendbytes: cut into frames of at most SIZE_UDPCONTENT bytes.

  function DataFrame(crc: Crc, ssid: bv32, n: nat, chunk: seq<byte>): seq<byte> {
    Encode(crc, Pkg(ssid, n, DAT, 0, chunk))
  }

  function Cut(size: nat): nat {
    if size < CONTENT then size else CONTENT
  }

  function Chunks(data: seq<byte>): (cs: seq<seq<byte>>)
    ensures forall c :: c in cs ==> 0 < |c| <= CONTENT
  {
    if data == [] then [] else [data[..Cut(|data|)]] + Chunks(data[Cut(|data|)..])
  }

  // The loop of sendbytes: the socket and the frames handed to udpsend; clock gives the time stamps.
  function SendChunks(crc: Crc, s: Sock, cs: seq<seq<byte>>, clock: nat -> int, out: seq<seq<byte>>): (Sock, seq<seq<byte>>)
    decreases |cs|
  {
    if cs == [] then (s, out) else
    var f := DataFrame(crc, s.ssid, s.nxtsnd, cs[0]);
    SendChunks(crc, s.(nxtsnd := s.nxtsnd + 1, sbuf := s.sbuf + [Entry(s.nxtsnd, 0, 0, clock(s.nxtsnd), f)]), cs[1..], clock, out + [f])
  }

  function SendBytes(crc: Crc, s: Sock, data: seq<byte>, clock: nat -> int): (Sock, seq<seq<byte>>) {
    SendChunks(crc, s, Chunks(data), clock, [])
  }

  // ---- resend

  function Resend(s: Sock, now: int, delta: nat, base: int, budget: nat): (Sock, seq<seq<byte>>) {
    var (es, out) := ResendPass(s.sbuf, 0, ResendArgs(now, s.ackmax, delta, base), budget, []);
    (s.(sbuf := es), out)
  }

  // ---- do_datafrm: the frames handed up, and false when the frame cannot be stored.

  function Frms(es: seq<Entry>): (r: seq<seq<byte>>)
    ensures |r| == |es|
    ensures forall i :: 0 <= i < |es| ==> r[i] == es[i].frm
  {
    seq(|es|, i requires 0 <= i < |es| => es[i].frm)
  }

  function DoDataFrm(s: Sock, seqno: nat, f: seq<byte>): (Sock, seq<seq<byte>>, bool) {
    if seqno < s.nxtrcv then (s.(force := 2), [], true)
    else if |f| > MTU then (s.(force := 2, maxrcv := Max(s.maxrcv, seqno)), [], false)
    else
      var rb := Insert(s.rbuf, Entry(seqno, 0, 0, 0, f));
      var n := RunLength(rb, s.nxtrcv);
      (s.(force := 2, maxrcv := Max(s.maxrcv, seqno), rbuf := rb[n..], nxtrcv := s.nxtrcv + n), Frms(rb[..n]), true)
  }

  // ---- ACK frames carry the last number received in order and the numbers held out of order.

  function EncodeNos(nos: seq<nat>): (d: seq<byte>)
    ensures |d| == 8 * |nos|
  {
    if nos == [] then [] else LE(nos[0], 8) + EncodeNos(nos[1..])
  }

  function DecodeNos(d: seq<byte>): (nos: seq<nat>) {
    if |d| < 8 then [] else [UnLE(d[..8])] + DecodeNos(d[8..])
  }

  lemma {:induction false} NosRoundTrip(nos: seq<nat>)
    requires forall i :: 0 <= i < |nos| ==> nos[i] < SEQ_END
    ensures DecodeNos(EncodeNos(nos)) == nos
  {
    if nos != [] {
      var d := EncodeNos(nos);
      assert d[..8] == LE(nos[0], 8) && d[8..] == EncodeNos(nos[1..]);
      assert Pow256(8) == SEQ_END;
      LERoundTrip(nos[0], 8);
      NosRoundTrip(nos[1..]);
    }
  }

  function DoAck(s: Sock, upto: nat, nos: seq<nat>): Sock {
    s.(sbuf := AckDel(s.sbuf, upto, nos), ackmax := AckMax(s.sbuf, upto, nos, Max(s.ackmax, upto)))
  }

  function AckFrame(crc: Crc, s: Sock, nos: seq<nat>): seq<byte>
    requires s.nxtrcv > 0
  {
    Encode(crc, Pkg(s.ssid, s.nxtrcv - 1, ACK, 0, EncodeNos(nos)))
  }

  // ackex: one frame for every 176 held numbers, and one for the rest or when there is none.
  function AckFrames(crc: Crc, s: Sock, nos: seq<nat>): (fs: seq<seq<byte>>)
    requires s.nxtrcv > 0
    ensures |fs| >= 1
  {
    if |nos| <= MAX_NOS then [AckFrame(crc, s, nos)]
    else [AckFrame(crc, s, nos[..MAX_NOS])] + AckFrames(crc, s, nos[MAX_NOS..])
  }

  function AckEx(crc: Crc, s: Sock): (Sock, seq<seq<byte>>)
    requires s.nxtrcv > 0
  {
    if s.force <= 0 then (s, []) else (s.(force := s.force - 1), AckFrames(crc, s, RecvAcks(s.rbuf, s.nxtrcv)))
  }

  // ---- onrecv and dorevc for the frames of an established connection.

  function OnRecv(crc: Crc, s: Sock, f: seq<byte>): (Sock, seq<seq<byte>>, bool) {
    match ParseHead(crc, f)
    case None => (s, [], true)
    case Some(h) =>
      if h.ussid != s.ssid then (s, [], true)
      else if h.cmd == DAT || h.cmd == DATR then DoDataFrm(s, h.seqno, f)
      else if h.cmd == ACK then
        match Parse(crc, f)
        case None => (s, [], false)
        case Some(p) => (DoAck(s, p.seqno, DecodeNos(p.data)), [], true)
      else (s, [], true)
  }

  // acked(seqno): the send list is empty or starts behind seqno.
  predicate Acked(s: Sock, seqno: nat) {
    s.sbuf == [] || s.sbuf[0].seqno > seqno
  }
}
