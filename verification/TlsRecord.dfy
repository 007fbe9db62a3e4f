/** TLS 1.2 records under the AES-CBC suites (ec_tls12.h): what a payload is sent as, what a peer makes of
    the bytes received, and that the peer gets the payload however the bytes are cut. */
module TlsRecord {
  import opened Wrappers
  import opened Bytes

  const BLOCK := 16           // AES_BLOCK_SIZE
  const CBCBLKSIZE := 16292   // TLS_CBCBLKSIZE
  const FRAGMENT := 16384     // tls_rec_fragment_len
  const SEQ_END := 0x1_0000_0000_0000_0000

  const CHANGE_CIPHER: byte := 20
  const ALERT: byte := 21
  const HANDSHAKE: byte := 22
  const APPDATA: byte := 23
  const MAJOR: byte := 3
  const MINOR: byte := 3

  datatype Suite = Aes128Sha | Aes256Sha | Aes128Sha256 | Aes256Sha256
  {
    predicate Sha1() { this == Aes128Sha || this == Aes256Sha }
    function MacLen(): nat { if Sha1() then 20 else 32 }
    function KeyBits(): nat { if this == Aes256Sha || this == Aes256Sha256 then 256 else 128 }
  }

  // HMAC, and AES-CBC both ways under a key of so many bits and an initial vector.
  datatype Crypto = Crypto(
    hmac: (bool, seq<byte>, seq<byte>) -> seq<byte>,
    enc: (nat, seq<byte>, seq<byte>, seq<byte>) -> seq<byte>,
    dec: (nat, seq<byte>, seq<byte>, seq<byte>) -> seq<byte>)

  /** All that is asked of them: the size of a hash, and that decryption undoes encryption of whole blocks. */
  ghost predicate Sound(c: Crypto) {
    && (forall sha1, key, m :: |c.hmac(sha1, key, m)| == if sha1 then 20 else 32)
    && (forall bits, key, iv, p :: |p| % BLOCK == 0 ==> |c.enc(bits, key, iv, p)| == |p|)
    && (forall bits, key, iv, p :: |p| % BLOCK == 0 ==> c.dec(bits, key, iv, c.enc(bits, key, iv, p)) == p)
    && (forall bits, key, iv, s :: |c.dec(bits, key, iv, s)| == |s|)
  }

  // client_write_MAC_key, server_write_MAC_key, client_write_key, server_write_key
  datatype Keys = Keys(cwmac: seq<byte>, swmac: seq<byte>, cw: seq<byte>, sw: seq<byte>)

  // One direction of a connection: what both ends use for it.
  datatype Dir = Dir(suite: Suite, crypto: Crypto, key: seq<byte>, mackey: seq<byte>)

  function WriteDir(suite: Suite, crypto: Crypto, keys: Keys, server: bool): Dir {
    Dir(suite, crypto, if server then keys.sw else keys.cw, if server then keys.swmac else keys.cwmac)
  }

  function ReadDir(suite: Suite, crypto: Crypto, keys: Keys, server: bool): Dir {
    if server then Dir(suite, crypto, keys.cw, keys.cwmac) else Dir(suite, crypto, keys.sw, keys.swmac)
  }

  function BE2(n: nat): (s: seq<byte>)
    ensures |s| == 2
  {
    [Lo(n / 256), Lo(n)]
  }

  function UnBE2(hi: byte, lo: byte): nat { 256 * (hi as nat) + lo as nat }

  lemma BE2RoundTrip(n: nat)
    requires n < 0x1_0000
    ensures UnBE2(BE2(n)[0], BE2(n)[1]) == n
  {
    hide Lo;
    TwoBytes(n);
  }

  function BE(n: nat, k: nat): (s: seq<byte>)
    ensures |s| == k
  {
    if k == 0 then [] else BE(n / 256, k - 1) + [Lo(n)]
  }

  function Next(seqno: nat): nat { (seqno + 1) % SEQ_END }

  // ---- a record ----

  function Mac(d: Dir, rectype: byte, seqno: nat, data: seq<byte>): seq<byte> {
    d.crypto.hmac(d.suite.Sha1(), d.mackey, BE(seqno, 8) + [rectype, MAJOR, MINOR] + BE2(|data|) + data)
  }

  // The padding length for so many bytes, the length byte among them.
  function Padding(len: nat): (p: nat)
    ensures p < BLOCK && (len + p) % BLOCK == 0
  {
    if len % BLOCK == 0 then 0 else BLOCK - len % BLOCK
  }

  function PadBytes(p: nat): (s: seq<byte>)
    ensures |s| == p + 1 && forall i :: 0 <= i <= p ==> s[i] as nat == p % 256
  {
    seq(p + 1, _ => Lo(p))
  }

  // Content, MAC, padding: the plaintext of a record.
  function Plain(d: Dir, rectype: byte, seqno: nat, data: seq<byte>): seq<byte> {
    data + Mac(d, rectype, seqno, data) + PadBytes(Padding(|data| + d.suite.MacLen() + 1))
  }

  function Head(rectype: byte, size: nat): (s: seq<byte>)
    ensures |s| == 5
  {
    [rectype, MAJOR, MINOR] + BE2(size)
  }

  // MKR_WithAES_BLK
  function Record(d: Dir, rectype: byte, seqno: nat, iv: seq<byte>, data: seq<byte>): seq<byte> {
    var c := d.crypto.enc(d.suite.KeyBits(), d.key, iv, Plain(d, rectype, seqno, data));
    Head(rectype, |c| + BLOCK) + iv + c
  }

  // decrypt_record: the record in clear, its head with the size of the content.
  function Decrypt(d: Dir, seqno: nat, pd: seq<byte>): (r: Option<seq<byte>>)
    ensures r.Some? ==> |r.value| >= 5
  {
    if |pd| < 53 then None else Verified(d, seqno, pd, d.crypto.dec(d.suite.KeyBits(), d.key, pd[5..5 + BLOCK], pd[5 + BLOCK..]))
  }

  function Verified(d: Dir, seqno: nat, pd: seq<byte>, sout: seq<byte>): (r: Option<seq<byte>>)
    requires |pd| >= 5
    ensures r.Some? ==> |r.value| >= 5
  {
    if sout == [] then None else
    var ufsize := sout[|sout| - 1] as nat;
    var datasize := |sout| - 1 - ufsize - d.suite.MacLen();
    if ufsize > 15 || datasize < 0 || datasize > FRAGMENT then None else
    if sout[datasize..datasize + d.suite.MacLen()] != Mac(d, pd[0], seqno, sout[..datasize]) then None else
    Some(pd[..3] + BE2(datasize) + sout[..datasize])
  }

  lemma PlainParts(d: Dir, rectype: byte, seqno: nat, data: seq<byte>)
    requires Sound(d.crypto)
    ensures var s := Plain(d, rectype, seqno, data);
            && |s| % BLOCK == 0 && 32 <= |s| <= |data| + 48
            && s[|s| - 1] as nat <= 15
            && |s| - 1 - s[|s| - 1] as nat - d.suite.MacLen() == |data|
            && s[..|data|] == data
            && s[|data|..|data| + d.suite.MacLen()] == Mac(d, rectype, seqno, data)
  {
    hide Sound, Mac, PadBytes;
    MacSize(d, rectype, seqno, data);
    var p := Padding(|data| + d.suite.MacLen() + 1);
    LastPad(p);
    PadLength(|data|, d.suite.MacLen());
    Parts(data, Mac(d, rectype, seqno, data), PadBytes(p));
  }

  lemma MacSize(d: Dir, rectype: byte, seqno: nat, data: seq<byte>)
    requires Sound(d.crypto)
    ensures |Mac(d, rectype, seqno, data)| == d.suite.MacLen()
  {
    hide BE, BE2;
  }

  lemma LastPad(p: nat)
    requires p < BLOCK
    ensures |PadBytes(p)| == p + 1 && PadBytes(p)[p] as nat == p
  {
    hide PadBytes;
    assert p % 256 == p;
    assert PadBytes(p)[p] as nat == p % 256;
  }

  lemma PadLength(size: nat, maclen: nat)
    requires maclen == 20 || maclen == 32
    ensures var n := size + maclen + 1 + Padding(size + maclen + 1); n % BLOCK == 0 && 32 <= n <= size + 48
  {
  }

  lemma Parts(data: seq<byte>, mac: seq<byte>, pad: seq<byte>)
    requires |pad| > 0
    ensures var s := data + mac + pad;
            s[..|data|] == data && s[|data|..|data| + |mac|] == mac && s[|s| - 1] == pad[|pad| - 1]
  {
  }

  lemma RecordSize(d: Dir, rectype: byte, seqno: nat, iv: seq<byte>, data: seq<byte>)
    requires Sound(d.crypto) && |iv| == BLOCK && |data| <= CBCBLKSIZE
    ensures var r := Record(d, rectype, seqno, iv, data);
            53 <= |r| <= FRAGMENT + 64 + 5 && r[..3] == [rectype, MAJOR, MINOR] && UnBE2(r[3], r[4]) + 5 == |r|
  {
    hide Plain, BE2;
    PlainParts(d, rectype, seqno, data);
    var c := d.crypto.enc(d.suite.KeyBits(), d.key, iv, Plain(d, rectype, seqno, data));
    assert |c| == |Plain(d, rectype, seqno, data)|;
    BE2RoundTrip(|c| + BLOCK);
  }

  /** For every suite, a record sent is accepted under its sequence number, its content unchanged. */
  lemma RecordRoundTrip(d: Dir, rectype: byte, seqno: nat, iv: seq<byte>, data: seq<byte>)
    requires Sound(d.crypto) && |iv| == BLOCK && |data| <= FRAGMENT
    ensures Decrypt(d, seqno, Record(d, rectype, seqno, iv, data)) == Some(Head(rectype, |data|) + data)
  {
    hide Plain, BE2, Mac;
    PlainParts(d, rectype, seqno, data);
    var s, r := Plain(d, rectype, seqno, data), Record(d, rectype, seqno, iv, data);
    var c := d.crypto.enc(d.suite.KeyBits(), d.key, iv, s);
    assert |c| == |s|;
    assert r[5..5 + BLOCK] == iv && r[5 + BLOCK..] == c && r[..3] == [rectype, MAJOR, MINOR];
    assert d.crypto.dec(d.suite.KeyBits(), d.key, iv, c) == s;
  }

  // ---- what is sent ----

  // The initial vectors RAND_bytes gives, by sequence number.
  type Random = nat -> seq<byte>

  ghost predicate Blocks(rand: Random) {
    forall n :: |rand(n)| == BLOCK
  }

  // mk_cipher
  function Sent(d: Dir, rand: Random, rectype: byte, seqno: nat, payload: seq<byte>): seq<byte>
    decreases |payload|
  {
    if payload == [] then []
    else if |payload| > CBCBLKSIZE then
      Record(d, rectype, seqno, rand(seqno), payload[..CBCBLKSIZE]) + Sent(d, rand, rectype, Next(seqno), payload[CBCBLKSIZE..])
    else Record(d, rectype, seqno, rand(seqno), payload)
  }

  // mk_nocipher
  function SentInClear(rectype: byte, payload: seq<byte>): seq<byte>
    decreases |payload|
  {
    if payload == [] then []
    else if |payload| > CBCBLKSIZE then
      Head(rectype, CBCBLKSIZE) + payload[..CBCBLKSIZE] + SentInClear(rectype, payload[CBCBLKSIZE..])
    else Head(rectype, |payload|) + payload
  }

  // ---- what is received ----

  // The reading half of a session: the records processed, the application data handed up, and the bytes
  // not yet processed. A dead one has refused the stream.
  datatype Peer = Peer(cipher: bool, seqno: nat, records: seq<seq<byte>>, app: seq<byte>, buf: seq<byte>, dead: bool)

  // What the handshake makes of the records so far is a parameter.
  datatype Env = Env(d: Dir, handshake: seq<seq<byte>> -> bool)

  function Die(p: Peer): Peer { p.(dead := true, buf := []) }

  // dorecord
  function DoRecord(env: Env, p: Peer, rec: seq<byte>): Peer
    requires |rec| >= 5
  {
    var q := p.(records := p.records + [rec]);
    if rec[0] == HANDSHAKE then if env.handshake(q.records) then q else Die(q)
    else if rec[0] == CHANGE_CIPHER then q.(cipher := true, seqno := 0)
    else if rec[0] == APPDATA then q.(app := q.app + rec[5..])
    else q
  }

  predicate BadHead(s: seq<byte>)
    requires |s| >= 5
  {
    s[0] < CHANGE_CIPHER || s[0] > APPDATA || s[1] != MAJOR || UnBE2(s[3], s[4]) > FRAGMENT + 64 || s[2] > MINOR
  }

  // A whole record at the front of the buffer.
  predicate Complete(s: seq<byte>) {
    |s| >= 5 && !BadHead(s) && UnBE2(s[3], s[4]) + 5 <= |s|
  }

  function RecordLen(s: seq<byte>): (n: nat)
    requires Complete(s)
    ensures 5 <= n <= |s|
  {
    UnBE2(s[3], s[4]) + 5
  }

  // That record processed.
  function TakeRecord(env: Env, p: Peer, rec: seq<byte>): Peer
    requires |rec| >= 5
  {
    if p.cipher then
      match Decrypt(env.d, p.seqno, rec)
      case None => Die(p)
      case Some(clear) => DoRecord(env, p.(seqno := Next(p.seqno)), clear)
    else DoRecord(env, p, rec)
  }

  // OnTcpRead, the bytes appended.
  function Drain(env: Env, p: Peer): Peer
    requires !p.dead
    decreases |p.buf|
  {
    if |p.buf| < 5 then p
    else if BadHead(p.buf) then Die(p)
    else if !Complete(p.buf) then p
    else
      var n := RecordLen(p.buf);
      var q := TakeRecord(env, p.(buf := p.buf[n..]), p.buf[..n]);
      if q.dead then q else Drain(env, q)
  }

  function Read(env: Env, p: Peer, bytes: seq<byte>): Peer {
    if p.dead then p else Drain(env, p.(buf := p.buf + bytes))
  }

  function ReadAll(env: Env, p: Peer, chunks: seq<seq<byte>>): Peer
    decreases |chunks|
  {
    if chunks == [] then p else ReadAll(env, Read(env, p, chunks[0]), chunks[1..])
  }

  function Joined(chunks: seq<seq<byte>>): seq<byte> {
    if chunks == [] then [] else chunks[0] + Joined(chunks[1..])
  }

  // ---- how the stream is cut ----

  // Of a record processed, the rest of the buffer is only carried along.
  lemma TakeBuf(env: Env, p: Peer, rec: seq<byte>, buf: seq<byte>)
    requires |rec| >= 5 && !p.dead
    ensures var q := TakeRecord(env, p, rec);
            TakeRecord(env, p.(buf := buf), rec) == (if q.dead then q else q.(buf := buf)) && (!q.dead ==> q.buf == p.buf)
  {
    hide Decrypt;
  }

  lemma {:induction false} DrainAppend(env: Env, p: Peer, more: seq<byte>)
    requires !p.dead
    ensures Read(env, Drain(env, p), more) == Drain(env, p.(buf := p.buf + more))
    decreases |p.buf|
  {
    hide TakeRecord;
    var s, t := p.buf, p.buf + more;
    if Complete(s) {
      var n := RecordLen(s);
      assert RecordLen(t) == n && t[..n] == s[..n] && t[n..] == s[n..] + more;
      TakeBuf(env, p.(buf := s[n..]), s[..n], s[n..] + more);
      var q := TakeRecord(env, p.(buf := s[n..]), s[..n]);
      if !q.dead {
        DrainAppend(env, q, more);
      }
    }
  }

  lemma {:induction false} ReadInPieces(env: Env, p: Peer, a: seq<byte>, chunks: seq<seq<byte>>)
    ensures ReadAll(env, Read(env, p, a), chunks) == Read(env, p, a + Joined(chunks))
    decreases |chunks|
  {
    hide Drain;
    if chunks == [] {
      assert a + [] == a;
    } else {
      if !p.dead {
        DrainAppend(env, p.(buf := p.buf + a), chunks[0]);
        assert p.buf + a + chunks[0] == p.buf + (a + chunks[0]);
      }
      ReadInPieces(env, p, a + chunks[0], chunks[1..]);
      assert a + chunks[0] + Joined(chunks[1..]) == a + Joined(chunks);
    }
  }

  /** The records processed, the data handed up and whether the stream is refused do not depend on how it
      is cut, whatever the bytes. */
  lemma CutsDoNotMatter(env: Env, p: Peer, chunks: seq<seq<byte>>)
    requires |p.buf| < 5 && !p.dead
    ensures ReadAll(env, p, chunks) == Read(env, p, Joined(chunks))
  {
    hide Joined;
    assert p.buf + [] == p.buf;
    assert Read(env, p, []) == p;
    ReadInPieces(env, p, [], chunks);
    assert [] + Joined(chunks) == Joined(chunks);
  }

  // ---- from one end to the other ----

  predicate IsType(rectype: byte) { CHANGE_CIPHER <= rectype <= APPDATA }

  // A record in front of the buffer is taken, and what is left is drained.
  lemma DrainRecord(env: Env, p: Peer, rectype: byte, iv: seq<byte>, data: seq<byte>, rest: seq<byte>)
    requires Sound(env.d.crypto) && |iv| == BLOCK && |data| <= CBCBLKSIZE && IsType(rectype)
    requires p.cipher && !p.dead && p.buf == Record(env.d, rectype, p.seqno, iv, data) + rest
    ensures var q := DoRecord(env, p.(seqno := Next(p.seqno), buf := rest), Head(rectype, |data|) + data);
            Drain(env, p) == if q.dead then q else Drain(env, q)
  {
    hide Record, Decrypt, DoRecord, Head;
    var r := Record(env.d, rectype, p.seqno, iv, data);
    RecordSize(env.d, rectype, p.seqno, iv, data);
    RecordRoundTrip(env.d, rectype, p.seqno, iv, data);
    HeadOf(r, rest, rectype);
  }

  lemma HeadOf(r: seq<byte>, rest: seq<byte>, rectype: byte)
    requires 5 <= |r| <= FRAGMENT + 64 + 5 && r[..3] == [rectype, MAJOR, MINOR] && UnBE2(r[3], r[4]) + 5 == |r| && IsType(rectype)
    ensures Complete(r + rest) && RecordLen(r + rest) == |r| && (r + rest)[..|r|] == r && (r + rest)[|r|..] == rest
  {
    assert r[0] == r[..3][0] && r[1] == r[..3][1] && r[2] == r[..3][2];
  }

  // The contents of the records a payload is split into.
  function Contents(rectype: byte, payload: seq<byte>): seq<seq<byte>>
    decreases |payload|
  {
    if payload == [] then []
    else if |payload| > CBCBLKSIZE then
      [Head(rectype, CBCBLKSIZE) + payload[..CBCBLKSIZE]] + Contents(rectype, payload[CBCBLKSIZE..])
    else [Head(rectype, |payload|) + payload]
  }

  // The sequence number behind the last record.
  function After(seqno: nat, payload: seq<byte>): nat
    decreases |payload|
  {
    if payload == [] then seqno
    else if |payload| > CBCBLKSIZE then After(Next(seqno), payload[CBCBLKSIZE..])
    else Next(seqno)
  }

  // The types of record a peer goes on after: of a handshake record its own verdict decides.
  ghost predicate Kept(env: Env, rectype: byte) {
    rectype == ALERT || rectype == APPDATA || (rectype == HANDSHAKE && forall h :: env.handshake(h))
  }

  function HandedUp(rectype: byte, payload: seq<byte>): seq<byte> {
    if rectype == APPDATA then payload else []
  }

  // The peer with the records of the payload processed.
  function Arrived(p: Peer, rectype: byte, payload: seq<byte>, seqno: nat): Peer {
    p.(seqno := seqno, records := p.records + Contents(rectype, payload), app := p.app + HandedUp(rectype, payload), buf := [])
  }

  lemma DoKept(env: Env, p: Peer, rectype: byte, data: seq<byte>)
    requires Kept(env, rectype)
    ensures var rec := Head(rectype, |data|) + data;
            DoRecord(env, p, rec) == p.(records := p.records + [rec], app := p.app + HandedUp(rectype, data))
  {
    var rec := Head(rectype, |data|) + data;
    assert rec[5..] == data;
    assert p.app + [] == p.app;
  }

  lemma ContentsNext(rectype: byte, data: seq<byte>, left: seq<byte>, payload: seq<byte>)
    requires payload == data + left && 0 < |data| <= CBCBLKSIZE && (left != [] ==> |data| == CBCBLKSIZE)
    ensures Contents(rectype, payload) == [Head(rectype, |data|) + data] + Contents(rectype, left)
  {
    hide Head;
    if left == [] {
      assert payload == data;
    } else {
      assert payload[..CBCBLKSIZE] == data && payload[CBCBLKSIZE..] == left;
    }
  }

  // One record further: what has arrived before it and with it.
  lemma ArrivedNext(p: Peer, rectype: byte, data: seq<byte>, left: seq<byte>, payload: seq<byte>, next: nat, seqno: nat, rest: seq<byte>)
    requires payload == data + left && 0 < |data| <= CBCBLKSIZE && (left != [] ==> |data| == CBCBLKSIZE)
    ensures var q := p.(seqno := next, records := p.records + [Head(rectype, |data|) + data], app := p.app + HandedUp(rectype, data), buf := rest);
            Arrived(q, rectype, left, seqno) == Arrived(p, rectype, payload, seqno)
  {
    hide Head, Contents;
    ContentsNext(rectype, data, left, payload);
    assert p.app + HandedUp(rectype, data) + HandedUp(rectype, left) == p.app + HandedUp(rectype, payload);
    assert p.records + [Head(rectype, |data|) + data] + Contents(rectype, left) == p.records + Contents(rectype, payload);
  }

  lemma DrainNothing(env: Env, p: Peer, rectype: byte)
    requires !p.dead && p.buf == []
    ensures Drain(env, p) == p == Arrived(p, rectype, [], p.seqno)
  {
  }

  lemma {:induction false} SentDrained(env: Env, rand: Random, p: Peer, rectype: byte, payload: seq<byte>)
    requires Sound(env.d.crypto) && Blocks(rand) && Kept(env, rectype)
    requires p.cipher && !p.dead && p.buf == Sent(env.d, rand, rectype, p.seqno, payload)
    ensures Drain(env, p) == Arrived(p, rectype, payload, After(p.seqno, payload))
    decreases |payload|
  {
    hide Record, Drain, Head, Arrived, DoRecord, HandedUp, Contents, Next;
    if payload == [] {
      DrainNothing(env, p, rectype);
    } else {
      var n := if |payload| > CBCBLKSIZE then CBCBLKSIZE else |payload|;
      var data, left, next := payload[..n], payload[n..], Next(p.seqno);
      assert left == [] ==> data == payload;
      var rest := Sent(env.d, rand, rectype, next, left);
      assert p.buf == Record(env.d, rectype, p.seqno, rand(p.seqno), data) + rest;
      DrainRecord(env, p, rectype, rand(p.seqno), data, rest);
      var r := p.(seqno := next, buf := rest);
      DoKept(env, r, rectype, data);
      SentDrained(env, rand, DoRecord(env, r, Head(rectype, |data|) + data), rectype, left);
      ArrivedNext(p, rectype, data, left, payload, next, After(p.seqno, payload), rest);
    }
  }

  lemma DrainClear(env: Env, p: Peer, rectype: byte, data: seq<byte>, rest: seq<byte>)
    requires |data| <= CBCBLKSIZE && IsType(rectype)
    requires !p.cipher && !p.dead && p.buf == Head(rectype, |data|) + data + rest
    ensures var q := DoRecord(env, p.(buf := rest), Head(rectype, |data|) + data);
            Drain(env, p) == if q.dead then q else Drain(env, q)
  {
    hide DoRecord, BE2;
    var r := Head(rectype, |data|) + data;
    BE2RoundTrip(|data|);
    assert r[..3] == [rectype, MAJOR, MINOR];
    HeadOf(r, rest, rectype);
  }

  lemma {:induction false} ClearDrained(env: Env, p: Peer, rectype: byte, payload: seq<byte>)
    requires Kept(env, rectype) && !p.cipher && !p.dead && p.buf == SentInClear(rectype, payload)
    ensures Drain(env, p) == Arrived(p, rectype, payload, p.seqno)
    decreases |payload|
  {
    hide Drain, Head, Arrived, DoRecord, HandedUp, Contents;
    if payload == [] {
      DrainNothing(env, p, rectype);
    } else {
      var n := if |payload| > CBCBLKSIZE then CBCBLKSIZE else |payload|;
      var data, left := payload[..n], payload[n..];
      assert left == [] ==> data == payload;
      var rest := SentInClear(rectype, left);
      assert p.buf == Head(rectype, |data|) + data + rest;
      DrainClear(env, p, rectype, data, rest);
      DoKept(env, p.(buf := rest), rectype, data);
      ClearDrained(env, DoRecord(env, p.(buf := rest), Head(rectype, |data|) + data), rectype, left);
      ArrivedNext(p, rectype, data, left, payload, p.seqno, p.seqno, rest);
    }
  }

  /** A payload of any length, split by mk_cipher and carried in any pieces to a peer that expects the
      sender's next sequence number, arrives whole and in order, and the two numbers agree again. */
  lemma PayloadArrives(env: Env, rand: Random, p: Peer, rectype: byte, payload: seq<byte>, chunks: seq<seq<byte>>)
    requires Sound(env.d.crypto) && Blocks(rand) && Kept(env, rectype) && p.cipher && !p.dead && p.buf == []
    requires Joined(chunks) == Sent(env.d, rand, rectype, p.seqno, payload)
    ensures ReadAll(env, p, chunks) == Arrived(p, rectype, payload, After(p.seqno, payload))
  {
    hide Drain, Sent, Arrived, After, ReadAll, Joined;
    CutsDoNotMatter(env, p, chunks);
    var s := Joined(chunks);
    assert p.buf + s == s;
    SentDrained(env, rand, p.(buf := s), rectype, payload);
    SameArrived(p, s, rectype, payload, After(p.seqno, payload));
  }

  lemma SameArrived(p: Peer, s: seq<byte>, rectype: byte, payload: seq<byte>, seqno: nat)
    ensures Arrived(p.(buf := s), rectype, payload, seqno) == Arrived(p, rectype, payload, seqno)
  {
  }

  // make_package: a payload whose first byte is that of an alert record goes in clear, whatever its type.
  function Package(d: Dir, cipher: bool, rand: Random, rectype: byte, seqno: nat, payload: seq<byte>): seq<byte>
    requires payload != []
  {
    if cipher && payload[0] != ALERT then Sent(d, rand, rectype, seqno, payload) else SentInClear(rectype, payload)
  }

  // What a peer in step with the sender has after the payload, its numbers moved on under the cipher alone.
  function ArrivedInStep(p: Peer, rectype: byte, payload: seq<byte>): Peer {
    Arrived(p, rectype, payload, if p.cipher then After(p.seqno, payload) else p.seqno)
  }

  /** make_package reaches a peer in the same cipher state if and only if the first byte is not 21 or no cipher
      is on. Otherwise the peer ends in another state, and a payload of less than 48 bytes is refused. */
  lemma PackageArrives(env: Env, rand: Random, p: Peer, rectype: byte, payload: seq<byte>)
    requires Sound(env.d.crypto) && Blocks(rand) && Kept(env, rectype) && !p.dead && p.buf == [] && payload != []
    ensures var q := Read(env, p, Package(env.d, p.cipher, rand, rectype, p.seqno, payload));
            && (q == ArrivedInStep(p, rectype, payload) <==> !(p.cipher && payload[0] == ALERT))
            && (p.cipher && payload[0] == ALERT ==> q.records != p.records + Contents(rectype, payload))
            && (p.cipher && payload[0] == ALERT && |payload| < 48 ==> q == Die(p))
  {
    hide Drain, Sent, SentInClear, After, Contents;
    var s := Package(env.d, p.cipher, rand, rectype, p.seqno, payload);
    assert p.buf + s == s;
    var r := p.(buf := s);
    if p.cipher && payload[0] != ALERT {
      SentDrained(env, rand, r, rectype, payload);
    } else if !p.cipher {
      ClearDrained(env, r, rectype, payload);
    } else {
      ClearMistaken(env, r, rectype, payload);
      if |payload| < 48 {
        ShortClear(env, r, rectype, payload);
      }
    }
  }

  // For instance the single byte 21.
  lemma AlertByte(env: Env, rand: Random, p: Peer)
    requires Sound(env.d.crypto) && Blocks(rand) && !p.dead && p.buf == [] && p.cipher
    ensures Read(env, p, Package(env.d, true, rand, APPDATA, p.seqno, [ALERT])) == Die(p)
  {
    hide Read, Package, Arrived, Contents;
    PackageArrives(env, rand, p, APPDATA, [ALERT]);
  }

  lemma TakeGrows(env: Env, p: Peer, rec: seq<byte>)
    requires |rec| >= 5
    ensures p.records <= TakeRecord(env, p, rec).records
  {
    hide Decrypt;
  }

  // No record is taken back.
  lemma {:induction false} RecordsGrow(env: Env, p: Peer)
    requires !p.dead
    ensures p.records <= Drain(env, p).records
    decreases |p.buf|
  {
    hide TakeRecord, BadHead;
    if Complete(p.buf) {
      var n := RecordLen(p.buf);
      var was := p.(buf := p.buf[n..]);
      TakeGrows(env, was, p.buf[..n]);
      TakeBuf(env, was, p.buf[..n], was.buf);
      var q := TakeRecord(env, was, p.buf[..n]);
      if !q.dead {
        RecordsGrow(env, q);
      }
    }
  }

  // A record in clear is longer than any record it could be decrypted to.
  lemma DecryptShortens(d: Dir, seqno: nat, pd: seq<byte>)
    requires Sound(d.crypto)
    ensures Decrypt(d, seqno, pd).Some? ==> |Decrypt(d, seqno, pd).value| + BLOCK <= |pd|
  {
    hide Mac, BE2;
    if |pd| >= 53 {
      var sout := d.crypto.dec(d.suite.KeyBits(), d.key, pd[5..5 + BLOCK], pd[5 + BLOCK..]);
      assert |sout| == |pd| - 5 - BLOCK;
    }
  }

  lemma ClearMistaken(env: Env, p: Peer, rectype: byte, payload: seq<byte>)
    requires Sound(env.d.crypto) && IsType(rectype) && p.cipher && !p.dead && payload != [] && p.buf == SentInClear(rectype, payload)
    ensures Drain(env, p).records != p.records + Contents(rectype, payload)
  {
    hide BE2, Decrypt;
    var n := if |payload| > CBCBLKSIZE then CBCBLKSIZE else |payload|;
    var r, rest := Head(rectype, n) + payload[..n], SentInClear(rectype, payload[n..]);
    BE2RoundTrip(n);
    assert r[..3] == [rectype, MAJOR, MINOR];
    assert p.buf == r + rest;
    HeadOf(r, rest, rectype);
    FirstContent(rectype, payload, n);
    Mistaken(env, p, r, rest, Contents(rectype, payload));
  }

  lemma FirstContent(rectype: byte, payload: seq<byte>, n: nat)
    requires payload != [] && n == if |payload| > CBCBLKSIZE then CBCBLKSIZE else |payload|
    ensures Contents(rectype, payload) != [] && Contents(rectype, payload)[0] == Head(rectype, n) + payload[..n]
  {
    assert n == |payload| ==> payload[..n] == payload;
  }

  lemma Mistaken(env: Env, p: Peer, r: seq<byte>, rest: seq<byte>, cs: seq<seq<byte>>)
    requires Sound(env.d.crypto) && p.cipher && !p.dead && p.buf == r + rest && Complete(p.buf) && RecordLen(p.buf) == |r|
    requires p.buf[..|r|] == r && cs != [] && cs[0] == r
    ensures Drain(env, p).records != p.records + cs
  {
    hide Sound, Decrypt;
    DecryptShortens(env.d, p.seqno, r);
    var q := TakeRecord(env, p.(buf := p.buf[|r|..]), r);
    if Decrypt(env.d, p.seqno, r).Some? {
      var clear := Decrypt(env.d, p.seqno, r).value;
      assert q.records == p.records + [clear];
      if !q.dead {
        RecordsGrow(env, q);
      }
      var k := |p.records|;
      assert Drain(env, p).records[k] == q.records[k] == clear;
      assert (p.records + cs)[k] == r;
    }
  }

  lemma ShortClear(env: Env, p: Peer, rectype: byte, payload: seq<byte>)
    requires IsType(rectype) && p.cipher && !p.dead && 0 < |payload| < 48 && p.buf == SentInClear(rectype, payload)
    ensures Drain(env, p) == Die(p)
  {
    hide BE2;
    var s := SentInClear(rectype, payload);
    BE2RoundTrip(|payload|);
    assert s[..3] == [rectype, MAJOR, MINOR];
    HeadOf(s, [], rectype);
    assert s + [] == s;
    assert Decrypt(env.d, p.seqno, s) == None;
  }

  // The contents concatenate to the payload, and each fits a fragment.
  function Carried(records: seq<seq<byte>>): seq<byte>
    requires forall i :: 0 <= i < |records| ==> |records[i]| >= 5
  {
    if records == [] then [] else records[0][5..] + Carried(records[1..])
  }

  lemma {:induction false} ContentsCarry(rectype: byte, payload: seq<byte>)
    ensures forall i :: 0 <= i < |Contents(rectype, payload)| ==> 5 < |Contents(rectype, payload)[i]| <= 5 + FRAGMENT
    ensures Carried(Contents(rectype, payload)) == payload
    decreases |payload|
  {
    hide Head;
    if |payload| > CBCBLKSIZE {
      ContentsCarry(rectype, payload[CBCBLKSIZE..]);
      assert (Head(rectype, CBCBLKSIZE) + payload[..CBCBLKSIZE])[5..] == payload[..CBCBLKSIZE];
      assert Contents(rectype, payload)[1..] == Contents(rectype, payload[CBCBLKSIZE..]);
      assert payload[..CBCBLKSIZE] + payload[CBCBLKSIZE..] == payload;
    } else if payload != [] {
      assert (Head(rectype, |payload|) + payload)[5..] == payload;
      assert Contents(rectype, payload)[1..] == [];
    }
  }

  lemma Rounded(n: nat)
    ensures (n + CBCBLKSIZE + CBCBLKSIZE - 1) / CBCBLKSIZE == (n + CBCBLKSIZE - 1) / CBCBLKSIZE + 1
  {
  }

  lemma NextMod(seqno: nat, k: nat)
    requires seqno < 0x1_0000_0000_0000_0000
    ensures (Next(seqno) + k) % 0x1_0000_0000_0000_0000 == (seqno + (1 + k)) % 0x1_0000_0000_0000_0000
  {
  }

  // One number for each record, and one record for each started 16292 bytes.
  lemma {:induction false} AfterCounts(rectype: byte, seqno: nat, payload: seq<byte>)
    requires seqno < SEQ_END
    ensures |Contents(rectype, payload)| == (|payload| + CBCBLKSIZE - 1) / CBCBLKSIZE
    ensures After(seqno, payload) == (seqno + |Contents(rectype, payload)|) % SEQ_END
    decreases |payload|
  {
    if |payload| > CBCBLKSIZE {
      var left := payload[CBCBLKSIZE..];
      AfterCounts(rectype, Next(seqno), left);
      Rounded(|left|);
      NextMod(seqno, |Contents(rectype, left)|);
    }
  }
}
