/** The record half of class tls::session of ec_tls12.h, its fields updated in place, proved to send and to
    read what TlsRecord says. */
module TlsSession {
  import opened Wrappers
  import opened Bytes
  import opened Outputs
  import opened TlsRecord

  const ERR := -1   // TLS_SESSION_ERR
  const NONE := 0   // TLS_SESSION_NONE
  const APP := 3    // TLS_SESSION_APPDATA

  class Session {
    const server: bool
    const suite: Suite
    const crypto: Crypto
    const keys: Keys
    const handshake: seq<seq<byte>> -> bool
    var readCipher: bool
    var sendCipher: bool
    var seqnoSend: nat
    var seqnoRead: nat
    var pkgtcp: seq<byte>
    var records: seq<seq<byte>>   // what dorecord was called with
    var app: seq<byte>            // the application data handed up

    constructor (server: bool, suite: Suite, crypto: Crypto, keys: Keys, handshake: seq<seq<byte>> -> bool)
      ensures this.server == server && this.suite == suite && this.crypto == crypto && this.keys == keys && this.handshake == handshake
      ensures View() == Peer(false, 0, [], [], [], false) && !sendCipher && seqnoSend == 0
    {
      this.server, this.suite, this.crypto, this.keys, this.handshake := server, suite, crypto, keys, handshake;
      readCipher, sendCipher, seqnoSend, seqnoRead := false, false, 0, 0;
      pkgtcp, records, app := [], [], [];
    }

    ghost function Writing(): Dir { WriteDir(suite, crypto, keys, server) }

    ghost function Reading(): Env { Env(ReadDir(suite, crypto, keys, server), handshake) }

    // The reading half.
    ghost function View(): Peer
      reads this`readCipher, this`seqnoRead, this`records, this`app, this`pkgtcp
    {
      Peer(readCipher, seqnoRead, records, app, pkgtcp, false)
    }

    // What a call returned and left behind, for what becomes of the peer: the bytes of a refused stream stay.
    ghost predicate Became(q: Peer, ret: int)
      reads this`readCipher, this`seqnoRead, this`records, this`app, this`pkgtcp
    {
      (ret == ERR <==> q.dead) && View() == q.(dead := false, buf := if q.dead then pkgtcp else q.buf)
    }

    // ---- sending ----

    // The content, its MAC, and the padding with its length byte.
    method Padded(rectype: byte, sblk: seq<byte>) returns (es: seq<byte>)
      requires Sound(crypto)
      ensures es == Plain(Writing(), rectype, seqnoSend, sblk)
    {
      hide BE, BE2, Sound, PadBytes, Padding;
      MacSize(Writing(), rectype, seqnoSend, sblk);
      var mackey := if server then keys.swmac else keys.cwmac;
      var mac := crypto.hmac(suite.Sha1(), mackey, BE(seqnoSend, 8) + [rectype, MAJOR, MINOR] + BE2(|sblk|) + sblk);
      var pad := Pad(|sblk| + |mac| + 1);
      es := sblk + mac + pad;
    }

    // The loop that pads, so many bytes with the length byte among them.
    static method Pad(len: nat) returns (pad: seq<byte>)
      ensures pad == PadBytes(Padding(len))
    {
      pad := [];
      if len % BLOCK != 0 {
        var n, i := BLOCK - len % BLOCK, 0;
        while i < n + 1
          invariant 0 <= i <= n + 1 && pad == PadBytes(n)[..i]
        {
          pad := pad + [Lo(n)];
          i := i + 1;
        }
        assert PadBytes(n)[..n + 1] == PadBytes(n);
      } else {
        pad := pad + [Lo(0)];
        assert PadBytes(0) == [Lo(0)];
      }
    }

    /** MKR_WithAES_BLK */
    method MkrWithAesBlk(pout: Out, rectype: byte, sblk: seq<byte>, rand: Random)
      requires Sound(crypto)
      modifies pout, this`seqnoSend
      ensures pout.data == old(pout.data) + Record(Writing(), rectype, old(seqnoSend), rand(old(seqnoSend)), sblk)
      ensures seqnoSend == Next(old(seqnoSend))
    {
      hide Plain, BE2;
      var es := Padded(rectype, sblk);
      PlainParts(Writing(), rectype, seqnoSend, sblk);
      var pkeyw := if server then keys.sw else keys.cw;
      var iv := rand(seqnoSend);
      var c := crypto.enc(suite.KeyBits(), pkeyw, iv, es);
      pout.Append([rectype, MAJOR, MINOR] + BE2(|es| + BLOCK) + iv + c);
      seqnoSend := (seqnoSend + 1) % SEQ_END;
    }

    /** mk_cipher */
    method MkCipher(pout: Out, rectype: byte, pdata: seq<byte>, rand: Random)
      requires Sound(crypto)
      modifies pout, this`seqnoSend
      ensures pout.data == old(pout.data) + Sent(Writing(), rand, rectype, old(seqnoSend), pdata)
      ensures seqnoSend == After(old(seqnoSend), pdata)
    {
      hide Record, Next;
      var us := 0;
      ghost var before := pout.data;
      ghost var d := Writing();
      while us < |pdata|
        invariant 0 <= us <= |pdata|
        invariant pout.data + Sent(d, rand, rectype, seqnoSend, pdata[us..]) == before + Sent(d, rand, rectype, old(seqnoSend), pdata)
        invariant After(seqnoSend, pdata[us..]) == After(old(seqnoSend), pdata)
      {
        ghost var left, data, seqno := pdata[us..], pout.data, seqnoSend;
        if us + CBCBLKSIZE < |pdata| {
          assert pdata[us..us + CBCBLKSIZE] == left[..CBCBLKSIZE] && pdata[us + CBCBLKSIZE..] == left[CBCBLKSIZE..];
          MkrWithAesBlk(pout, rectype, pdata[us..us + CBCBLKSIZE], rand);
          us := us + CBCBLKSIZE;
          Regroup(data, Record(d, rectype, seqno, rand(seqno), left[..CBCBLKSIZE]), Sent(d, rand, rectype, seqnoSend, left[CBCBLKSIZE..]));
        } else {
          MkrWithAesBlk(pout, rectype, pdata[us..], rand);
          return;
        }
      }
      assert pdata[us..] == [];
    }

    /** mk_nocipher */
    method MkNocipher(pout: Out, rectype: byte, pd: seq<byte>)
      modifies pout
      ensures pout.data == old(pout.data) + SentInClear(rectype, pd)
    {
      hide BE2;
      var pos := 0;
      ghost var before := pout.data;
      while pos < |pd|
        invariant 0 <= pos <= |pd|
        invariant pout.data + SentInClear(rectype, pd[pos..]) == before + SentInClear(rectype, pd)
      {
        ghost var left, data := pd[pos..], pout.data;
        var ss := CBCBLKSIZE;
        if pos + ss > |pd| {
          ss := |pd| - pos;
        }
        pout.Append([rectype, MAJOR, MINOR] + BE2(ss));
        pout.Append(pd[pos..pos + ss]);
        assert pd[pos..pos + ss] == left[..ss] && pd[pos + ss..] == left[ss..];
        ClearNext(rectype, left, ss);
        Regroup3(data, Head(rectype, ss), left[..ss], SentInClear(rectype, left[ss..]));
        pos := pos + ss;
      }
      assert pd[pos..] == [];
    }

    /** make_package */
    method MakePackage(pout: Out, rectype: byte, pd: seq<byte>, rand: Random)
      requires Sound(crypto) && |pd| > 0
      modifies pout, this`seqnoSend
      ensures pout.data == old(pout.data) + Package(Writing(), sendCipher, rand, rectype, old(seqnoSend), pd)
      ensures seqnoSend == if sendCipher && pd[0] != ALERT then After(old(seqnoSend), pd) else old(seqnoSend)
    {
      hide Sent, SentInClear, After;
      if sendCipher && pd[0] != ALERT {
        MkCipher(pout, rectype, pd, rand);
      } else {
        MkNocipher(pout, rectype, pd);
      }
    }

    // ---- reading ----

    /** decrypt_record */
    method DecryptRecord(pd: seq<byte>) returns (ok: bool, out: seq<byte>)
      requires Sound(crypto)
      modifies this`seqnoRead
      ensures match Decrypt(Reading().d, old(seqnoRead), pd)
              case None => !ok && seqnoRead == old(seqnoRead)
              case Some(clear) => ok && out == clear && seqnoRead == Next(old(seqnoRead))
    {
      hide BE, BE2, Sound, Decrypt;
      Decrypting(Reading().d, seqnoRead, pd);
      var maclen := if suite.Sha1() then 20 else 32;
      if |pd| < 53 {
        return false, [];
      }
      var pkey, pkmac := if server then keys.cw else keys.sw, if server then keys.cwmac else keys.swmac;
      var sout := crypto.dec(suite.KeyBits(), pkey, pd[5..5 + BLOCK], pd[5 + BLOCK..]);
      var ufsize := sout[|sout| - 1] as nat;
      if ufsize > 15 {
        return false, [];
      }
      // as a size_t a negative size is a huge one
      var datasize := |pd| - 5 - BLOCK - 1 - ufsize - maclen;
      if datasize < 0 || datasize > FRAGMENT {
        return false, [];
      }
      var mac := crypto.hmac(suite.Sha1(), pkmac, BE(seqnoRead, 8) + [pd[0], MAJOR, MINOR] + BE2(datasize) + sout[..datasize]);
      if mac != sout[datasize..datasize + maclen] {
        return false, [];
      }
      out := pd[..3] + BE2(datasize) + sout[..datasize];
      seqnoRead := (seqnoRead + 1) % SEQ_END;
      ok := true;
    }

    // dorecord
    method DoRecord(prec: seq<byte>) returns (ret: int)
      requires |prec| >= 5
      modifies this`records, this`app, this`readCipher, this`seqnoRead
      ensures Became(TlsRecord.DoRecord(Reading(), old(View()), prec), ret)
    {
      records := records + [prec];
      if prec[0] == HANDSHAKE {
        if !handshake(records) {
          return ERR;
        }
      } else if prec[0] == CHANGE_CIPHER {
        readCipher := true;
        seqnoRead := 0;
      } else if prec[0] == APPDATA {
        app := app + prec[5..];
        return APP;
      }
      ret := NONE;
    }

    // A whole record, decrypted first when the cipher is on.
    method TakeRecord(rec: seq<byte>) returns (ret: int)
      requires Sound(crypto) && |rec| >= 5
      modifies this`records, this`app, this`readCipher, this`seqnoRead
      ensures Became(TlsRecord.TakeRecord(Reading(), old(View()), rec), ret)
    {
      hide Decrypt, TlsRecord.DoRecord;
      if readCipher {
        var ok, tmp := DecryptRecord(rec);
        if !ok {
          return ERR;
        }
        ret := DoRecord(tmp);
      } else {
        ret := DoRecord(rec);
      }
    }

    /** OnTcpRead: every whole record is processed and the rest kept; a refused stream is kept whole. */
    method OnTcpRead(pd: seq<byte>) returns (nret: int)
      requires Sound(crypto)
      modifies this
      ensures Became(Read(Reading(), old(View()), pd), nret)
      ensures nret == ERR ==> pkgtcp == old(pkgtcp) + pd
    {
      hide Drain, TlsRecord.TakeRecord, UnBE2;
      pkgtcp := pkgtcp + pd;
      ghost var env, start := Reading(), View();
      var p := 0;
      nret := NONE;
      while |pkgtcp| - p >= 5
        invariant 0 <= p <= |pkgtcp| && nret != ERR && pkgtcp == start.buf
        invariant Drain(env, View().(buf := pkgtcp[p..])) == Drain(env, start)
        decreases |pkgtcp| - p
      {
        DrainTurn(env, View(), p);
        var ulen := UnBE2(pkgtcp[p + 3], pkgtcp[p + 4]);
        if pkgtcp[p] < CHANGE_CIPHER || pkgtcp[p] > APPDATA || pkgtcp[p + 1] != MAJOR || ulen > FRAGMENT + 64 || pkgtcp[p + 2] > MINOR {
          return ERR;
        }
        if p + ulen + 5 > |pkgtcp| {
          break;
        }
        nret := TakeRecord(pkgtcp[p..p + ulen + 5]);
        if nret == ERR {
          return;
        }
        p := p + ulen + 5;
      }
      DrainEnd(env, View(), p);
      pkgtcp := pkgtcp[p..];
    }
  }

  lemma Decrypting(d: Dir, seqno: nat, pd: seq<byte>)
    requires Sound(d.crypto)
    ensures |pd| < 53 ==> Decrypt(d, seqno, pd) == None
    ensures |pd| >= 53 ==>
              var sout := d.crypto.dec(d.suite.KeyBits(), d.key, pd[5..5 + BLOCK], pd[5 + BLOCK..]);
              |sout| == |pd| - 5 - BLOCK && Decrypt(d, seqno, pd) == Verified(d, seqno, pd, sout)
  {
    hide Verified;
  }

  lemma Regroup(a: seq<byte>, b: seq<byte>, c: seq<byte>)
    ensures a + b + c == a + (b + c)
  {
  }

  lemma Regroup3(a: seq<byte>, b: seq<byte>, c: seq<byte>, d: seq<byte>)
    ensures a + b + c + d == a + (b + c + d)
  {
  }

  lemma ClearNext(rectype: byte, left: seq<byte>, ss: nat)
    requires 0 < ss <= |left| && ss == if |left| > CBCBLKSIZE then CBCBLKSIZE else |left|
    ensures SentInClear(rectype, left) == Head(rectype, ss) + left[..ss] + SentInClear(rectype, left[ss..])
  {
    hide Head;
    if ss == |left| {
      assert left[..ss] == left && SentInClear(rectype, left[ss..]) == [];
    }
  }

  ghost predicate BadHeadAt(s: seq<byte>, p: nat)
    requires p + 5 <= |s|
  {
    s[p] < CHANGE_CIPHER || s[p] > APPDATA || s[p + 1] != MAJOR || UnBE2(s[p + 3], s[p + 4]) > FRAGMENT + 64 || s[p + 2] > MINOR
  }

  function NextAt(s: seq<byte>, p: nat): nat
    requires p + 5 <= |s|
  {
    p + UnBE2(s[p + 3], s[p + 4]) + 5
  }

  lemma HeadAt(s: seq<byte>, p: nat)
    requires p + 5 <= |s|
    ensures var t := s[p..];
            && BadHead(t) == BadHeadAt(s, p)
            && Complete(t) == (!BadHead(t) && NextAt(s, p) <= |s|)
            && (Complete(t) ==> p + RecordLen(t) == NextAt(s, p) && t[..RecordLen(t)] == s[p..NextAt(s, p)] && t[RecordLen(t)..] == s[NextAt(s, p)..])
  {
    hide UnBE2;
    var t := s[p..];
    assert t[0] == s[p] && t[1] == s[p + 1] && t[2] == s[p + 2] && t[3] == s[p + 3] && t[4] == s[p + 4];
  }

  // Drain from p on, one record further.
  lemma DrainTurn(env: Env, v: Peer, p: nat)
    requires !v.dead && p + 5 <= |v.buf|
    ensures var now := v.(buf := v.buf[p..]);
            if BadHeadAt(v.buf, p) then Drain(env, now) == Die(v)
            else if NextAt(v.buf, p) > |v.buf| then Drain(env, now) == now
            else
              var q := TlsRecord.TakeRecord(env, v, v.buf[p..NextAt(v.buf, p)]);
              if q.dead then Drain(env, now) == q else q.buf == v.buf && Drain(env, now) == Drain(env, q.(buf := v.buf[NextAt(v.buf, p)..]))
  {
    hide TlsRecord.TakeRecord, BadHead, BadHeadAt, Complete, NextAt, RecordLen;
    HeadAt(v.buf, p);
    Opened(v.buf[p..]);
    if Complete(v.buf[p..]) {
      TakeBuf(env, v, v.buf[p..NextAt(v.buf, p)], v.buf[NextAt(v.buf, p)..]);
    }
  }

  lemma Opened(t: seq<byte>)
    ensures Complete(t) ==> |t| >= 5 && !BadHead(t)
  {
  }

  // Drain from p on, with no whole record left.
  lemma DrainEnd(env: Env, v: Peer, p: nat)
    requires !v.dead && p <= |v.buf|
    requires p + 5 <= |v.buf| ==> !BadHeadAt(v.buf, p) && NextAt(v.buf, p) > |v.buf|
    ensures Drain(env, v.(buf := v.buf[p..])) == v.(buf := v.buf[p..])
  {
    hide BadHead, BadHeadAt, NextAt;
    if p + 5 <= |v.buf| {
      HeadAt(v.buf, p);
    }
  }

  // Both ends of a direction use the same suite and keys.
  lemma OneDirection(suite: Suite, crypto: Crypto, keys: Keys, server: bool)
    ensures WriteDir(suite, crypto, keys, server) == ReadDir(suite, crypto, keys, !server)
  {
  }

  /** Two sessions of a connection, the cipher on and in step: what one sends as application data the other
      hands up, and they are in step again. */
  method Transfer(a: Session, b: Session, payload: seq<byte>, rand: Random) returns (nret: int)
    requires a != b && a.suite == b.suite && a.crypto == b.crypto && a.keys == b.keys && a.server != b.server
    requires Sound(a.crypto) && Blocks(rand)
    requires b.readCipher && b.pkgtcp == [] && a.seqnoSend == b.seqnoRead
    modifies a`seqnoSend, b
    ensures nret != ERR && b.app == old(b.app) + payload && b.pkgtcp == [] && b.readCipher
    ensures a.seqnoSend == b.seqnoRead
  {
    hide Sent, After, Drain, Contents;
    OneDirection(a.suite, a.crypto, a.keys, a.server);
    var pout := new Out();
    ghost var p := b.View();
    a.MkCipher(pout, APPDATA, payload, rand);
    assert p.buf + pout.data == pout.data;
    SentDrained(b.Reading(), rand, p.(buf := pout.data), APPDATA, payload);
    nret := b.OnTcpRead(pout.data);
  }
}
