/** class frmpkg: the frame codec working in place on byte buffers, proved against UcpFrame. */
module UcpFrmPkg {
  import opened Wrappers
  import opened Bytes
  import opened UcpFrame

  // C's division: truncates towards zero.
  function CDiv(a: int, b: int): int
    requires b > 0
  {
    if a >= 0 then a / b else -(-a / b)
  }

  // The mask as seen from a word boundary nl bytes on: umask >> nl*8 | umask << (4-nl)*8.
  function RotateMask(m: bv32, nl: int): bv32 {
    if nl == 1 then (m >> 8) | (m << 24)
    else if nl == 2 then (m >> 16) | (m << 16)
    else if nl == 3 then (m >> 24) | (m << 8)
    else m
  }

  lemma RotateBy1(m: bv32)
    ensures var u := (m >> 8) | (m << 24); B0(u) == B1(m) && B1(u) == B2(m) && B2(u) == B3(m) && B3(u) == B0(m)
  {
  }

  lemma RotateBy2(m: bv32)
    ensures var u := (m >> 16) | (m << 16); B0(u) == B2(m) && B1(u) == B3(m) && B2(u) == B0(m) && B3(u) == B1(m)
  {
  }

  lemma RotateBy3(m: bv32)
    ensures var u := (m >> 24) | (m << 8); B0(u) == B3(m) && B1(u) == B0(m) && B2(u) == B1(m) && B3(u) == B2(m)
  {
  }

  lemma RotateMaskAt(m: bv32, nl: int, j: nat)
    requires 0 <= nl < 4
    ensures var u := RotateMask(m, nl); var k := nl + 4 * j;
            B0(u) == MaskAt(m, k) && B1(u) == MaskAt(m, k + 1) && B2(u) == MaskAt(m, k + 2) && B3(u) == MaskAt(m, k + 3)
  {
    var k := nl + 4 * j;
    if nl == 1 {
      RotateBy1(m);
      assert k % 4 == 1 && (k + 1) % 4 == 2 && (k + 2) % 4 == 3 && (k + 3) % 4 == 0;
    } else if nl == 2 {
      RotateBy2(m);
      assert k % 4 == 2 && (k + 1) % 4 == 3 && (k + 2) % 4 == 0 && (k + 3) % 4 == 1;
    } else if nl == 3 {
      RotateBy3(m);
      assert k % 4 == 3 && (k + 1) % 4 == 0 && (k + 2) % 4 == 1 && (k + 3) % 4 == 2;
    } else {
      assert k % 4 == 0 && (k + 1) % 4 == 1 && (k + 2) % 4 == 2 && (k + 3) % 4 == 3;
    }
  }

  function XoredWord(b0: byte, b1: byte, b2: byte, b3: byte, um: bv32): (x: seq<byte>)
    ensures x == [b0 ^ B0(um), b1 ^ B1(um), b2 ^ B2(um), b3 ^ B3(um)]
  {
    var w := Word(b0, b1, b2, b3);
    WordBytes(b0, b1, b2, b3);
    WordXor(w, um);
    WordLE(w ^ um)
  }

  // Exclusive or of one little-endian word in place: *puint ^= um.
  method XorWord(a: array<byte>, at: nat, um: bv32)
    requires at + 4 <= a.Length
    modifies a
    ensures a[..] == old(a[..at] + XoredWord(a[at], a[at + 1], a[at + 2], a[at + 3], um) + a[at + 4..])
  {
    var x := XoredWord(a[at], a[at + 1], a[at + 2], a[at + 3], um);
    a[at], a[at + 1], a[at + 2], a[at + 3] := x[0], x[1], x[2], x[3];
  }

  // Positions lo..hi of the region starting at from are masked, all other bytes are as before.
  ghost predicate Masked(now: seq<byte>, before: seq<byte>, from: nat, lo: nat, hi: nat, m: bv32) {
    && |now| == |before| && lo <= hi && from + hi <= |before|
    && forall i :: 0 <= i < |before| ==>
         now[i] == if from + lo <= i < from + hi then before[i] ^ MaskAt(m, i - from) else before[i]
  }

  lemma MaskedNone(s: seq<byte>, from: nat, lo: nat, m: bv32)
    requires from + lo <= |s|
    ensures Masked(s, s, from, lo, lo, m)
  {
  }

  // One byte further.
  lemma MaskedByte(now: seq<byte>, was: seq<byte>, before: seq<byte>, from: nat, lo: nat, hi: nat, m: bv32)
    requires from + hi < |was| && Masked(was, before, from, lo, hi, m) && now == was[from + hi := was[from + hi] ^ MaskAt(m, hi)]
    ensures Masked(now, before, from, lo, hi + 1, m)
  {
    hide MaskAt;
  }

  // One region behind the other.
  lemma MaskedJoined(now: seq<byte>, was: seq<byte>, before: seq<byte>, from: nat, lo: nat, mid: nat, hi: nat, m: bv32)
    requires Masked(was, before, from, lo, mid, m) && Masked(now, was, from, mid, hi, m)
    ensures Masked(now, before, from, lo, hi, m)
  {
    hide MaskAt;
  }

  lemma MaskedWhole(now: seq<byte>, before: seq<byte>, from: nat, size: nat, m: bv32)
    requires Masked(now, before, from, 0, size, m)
    ensures now == before[..from] + XorMask(before[from..from + size], m) + before[from + size..]
  {
    hide MaskAt;
    var x := XorMask(before[from..from + size], m);
    var r := before[..from] + x + before[from + size..];
    forall i | 0 <= i < |now| ensures now[i] == r[i] {
      if i < from {
      } else if i < from + size {
        assert r[i] == x[i - from] == before[from..from + size][i - from] ^ MaskAt(m, i - from);
      } else {
        assert r[i] == before[from + size..][i - from - size];
      }
    }
  }

  // for (; i < hi; i++) pd[i] ^= (umask >> ((i % 4) * 8)) & 0xFF;
  method XorBytes(a: array<byte>, from: nat, lo: nat, hi: nat, umask: bv32)
    requires lo <= hi && from + hi <= a.Length
    modifies a
    ensures Masked(a[..], old(a[..]), from, lo, hi, umask)
  {
    hide Masked, MaskAt;
    var i := lo;
    MaskedNone(a[..], from, lo, umask);
    while i < hi
      invariant lo <= i <= hi
      invariant Masked(a[..], old(a[..]), from, lo, i, umask)
    {
      ghost var was := a[..];
      a[from + i] := a[from + i] ^ MaskAt(umask, i);
      assert a[..] == was[from + i := was[from + i] ^ MaskAt(umask, i)];
      MaskedByte(a[..], was, old(a[..]), from, lo, i, umask);
      i := i + 1;
    }
  }

  // The rotated mask lines up with the repeating mask at a word boundary.
  lemma MaskedWord(b: seq<byte>, m: bv32, nl: nat, j: nat)
    requires nl < 4 && |b| == 4
    ensures var k := nl + 4 * j;
            XoredWord(b[0], b[1], b[2], b[3], RotateMask(m, nl))
            == [b[0] ^ MaskAt(m, k), b[1] ^ MaskAt(m, k + 1), b[2] ^ MaskAt(m, k + 2), b[3] ^ MaskAt(m, k + 3)]
  {
    hide XoredWord, MaskAt, RotateMask, B0, B1, B2, B3;
    RotateMaskAt(m, nl, j);
  }

  // One more word of the region is done.
  lemma MaskedMore(now: seq<byte>, was: seq<byte>, before: seq<byte>, from: nat, lo: nat, hi: nat, m: bv32)
    requires lo <= hi && from + hi + 4 <= |before|
    requires Masked(was, before, from, lo, hi, m)
    requires now == was[..from + hi] + [was[from + hi] ^ MaskAt(m, hi), was[from + hi + 1] ^ MaskAt(m, hi + 1),
                                        was[from + hi + 2] ^ MaskAt(m, hi + 2), was[from + hi + 3] ^ MaskAt(m, hi + 3)] + was[from + hi + 4..]
    ensures Masked(now, before, from, lo, hi + 4, m)
  {
    hide MaskAt;
  }

  // puint[j] ^= um keeps the region masked, one word further.
  method XorNextWord(a: array<byte>, from: nat, nl: nat, j: nat, umask: bv32, um: bv32, ghost before: seq<byte>)
    requires nl < 4 && from + nl + 4 * j + 4 <= a.Length && um == RotateMask(umask, nl)
    requires |before| == a.Length
    requires Masked(a[..], before, from, nl, nl + 4 * j, umask)
    modifies a
    ensures Masked(a[..], before, from, nl, nl + 4 * j + 4, umask)
  {
    hide *;
    var at := from + nl + 4 * j;
    ghost var was := a[..];
    MaskedWord(was[at..at + 4], umask, nl, j);
    XorWord(a, at, um);
    MaskedMore(a[..], was, before, from, nl, nl + 4 * j, umask);
  }

  // for (i = 0; i < nu; i++) puint[i] ^= um;
  method XorWords(a: array<byte>, from: nat, nl: nat, nu: nat, umask: bv32)
    requires nl < 4 && from + nl + 4 * nu <= a.Length
    modifies a
    ensures Masked(a[..], old(a[..]), from, nl, nl + 4 * nu, umask)
  {
    hide Masked, RotateMask;
    var um := RotateMask(umask, nl);
    var i := 0;
    MaskedNone(a[..], from, nl, umask);
    while i < nu
      invariant 0 <= i <= nu
      invariant Masked(a[..], old(a[..]), from, nl, nl + 4 * i, umask)
    {
      XorNextWord(a, from, nl, i, umask, um, old(a[..]));
      i := i + 1;
    }
  }

  /** fastxor_le(pd = &a[from], size, umask), where the buffer starts at address addr: the leading
      bytes up to a word boundary, then whole words with the rotated mask, then the tail. */
  method FastXor(a: array<byte>, addr: nat, from: nat, size: nat, umask: bv32)
    requires from + size <= a.Length
    modifies a
    ensures a[..] == old(a[..from]) + XorMask(old(a[from..from + size]), umask) + old(a[from + size..])
  {
    hide Masked, XorMask;
    ghost var before := a[..];
    MaskedNone(before, from, 0, umask);
    if size != 0 {
      var nl := if (addr + from) % 4 != 0 then 4 - (addr + from) % 4 else 0;
      var nu := CDiv(size - nl, 4);
      Quarters(size, nl);
      XorBytes(a, from, 0, if nl < size then nl else size, umask);
      ghost var head := a[..];
      if nu > 0 {
        XorWords(a, from, nl, nu, umask);
        MaskedJoined(a[..], head, before, from, 0, nl, nl + 4 * nu, umask);
      }
      ghost var words := a[..];
      if nl + nu * 4 < size {
        XorBytes(a, from, nl + nu * 4, size, umask);
        MaskedJoined(a[..], words, before, from, 0, nl + 4 * nu, size, umask);
      }
    }
    MaskedWhole(a[..], before, from, size, umask);
  }

  // The whole words between a head of nl bytes and a tail: none when the head is longer than all.
  lemma Quarters(size: nat, nl: nat)
    requires nl < 4
    ensures var nu := CDiv(size - nl, 4);
            nu >= 0 && (size < nl ==> nu == 0) && (nl <= size ==> nl + 4 * nu <= size)
  {
  }

  // stream << at a position: the bytes land in the buffer, nothing else moves.
  method Store(a: array<byte>, at: nat, s: seq<byte>)
    requires at + |s| <= a.Length
    modifies a
    ensures a[..] == old(a[..at]) + s + old(a[at + |s|..])
  {
    forall i | 0 <= i < |s| {
      a[at + i] := s[i];
    }
  }

  // The slices of a sequence with d written over it at a position.
  lemma Written(was: seq<byte>, at: nat, d: seq<byte>, now: seq<byte>)
    requires at + |d| <= |was| && now == was[..at] + d + was[at + |d|..]
    ensures |now| == |was| && now[..at] == was[..at] && now[at..at + |d|] == d && now[at + |d|..] == was[at + |d|..]
  {
  }

  // A slice of what lies behind a written part.
  lemma Behind(was: seq<byte>, now: seq<byte>, from: nat, lo: nat, hi: nat)
    requires from <= lo <= hi <= |was| == |now| && now[from..] == was[from..]
    ensures now[lo..hi] == was[lo..hi] && now[lo..] == was[lo..]
  {
    forall i | lo <= i < |was| ensures now[i] == was[i] {
      assert now[from..][i - from] == was[from..][i - from];
    }
  }

  // The frame sealed: the checksum in front, the rest masked.
  lemma Sealed(was: seq<byte>, mid: seq<byte>, now: seq<byte>, w: seq<byte>, size: nat, m: bv32)
    requires |w| == 4 <= size <= |was| && mid == was[..0] + w + was[4..]
    requires now == mid[..4] + XorMask(mid[4..4 + (size - 4)], m) + mid[4 + (size - 4)..]
    ensures now == w + XorMask(was[4..size], m) + was[size..]
  {
    hide XorMask;
    Written(was, 0, w, mid);
    Behind(was, mid, 4, 4, size);
    Behind(was, mid, 4, size, size);
  }

  // The head written in front of the data.
  lemma HeadWritten(was: seq<byte>, mid: seq<byte>, w: seq<byte>, h: seq<byte>, size: nat)
    requires |w| == 4 && |h| == 16 && HEAD <= size <= |was| && mid == was[..0] + (w + h) + was[0 + |w + h|..]
    ensures |mid| == |was| && mid[4..HEAD] == h && mid[4..size] == h + was[HEAD..size] && mid[size..] == was[size..]
  {
    Written(was, 0, w + h, mid);
    Behind(was, mid, HEAD, HEAD, size);
    Behind(was, mid, HEAD, size, size);
    assert mid[..HEAD] == w + h;
    assert mid[4..HEAD] == mid[..HEAD][4..] == h;
    assert mid[4..size] == mid[4..HEAD] + mid[HEAD..size];
  }

  // Head and data written one after the other.
  lemma DataWritten(was: seq<byte>, mid: seq<byte>, now: seq<byte>, w: seq<byte>, h: seq<byte>, d: seq<byte>)
    requires |w| == 4 && |h| == 16 && HEAD + |d| <= |was| && mid == was[..0] + (w + h) + was[0 + |w + h|..]
    requires now == mid[..HEAD] + d + mid[HEAD + |d|..]
    ensures |now| == |was| && now[4..HEAD] == h && now[4..HEAD + |d|] == h + d && now[HEAD + |d|..] == was[HEAD + |d|..]
  {
    HeadWritten(was, mid, w, h, HEAD + |d|);
    Written(mid, HEAD, d, now);
    assert now[4..HEAD] == now[..HEAD][4..] == mid[..HEAD][4..] == mid[4..HEAD];
    assert now[4..HEAD + |d|] == now[4..HEAD] + now[HEAD..HEAD + |d|];
  }

  // The frame unmasked in place.
  lemma Unmasked(was: seq<byte>, now: seq<byte>, size: nat, m: bv32)
    requires HEAD <= size <= |was| && now == was[..4] + XorMask(was[4..4 + (size - 4)], m) + was[4 + (size - 4)..]
    ensures var u := XorMask(was[4..size], m); |now| == |was| && |u| == size - 4 && now[4..HEAD] == u[..16] && now[HEAD..size] == u[16..]
  {
    hide XorMask;
    var u := XorMask(was[4..size], m);
    assert now[4..size] == u;
    assert now[4..HEAD] == now[4..size][..16] && now[HEAD..size] == now[4..size][16..];
  }

  // What sealing makes of head and data is the encoded frame.
  lemma Encoded(crc: Crc, p: Pkg, mid: seq<byte>, now: seq<byte>, size: nat)
    requires size == HEAD + |p.data| <= |mid| && mid[4..HEAD] == HeadBytes(p.Header()) && mid[4..size] == HeadBytes(p.Header()) + p.data
    requires now == WordLE(crc(mid[4..HEAD])) + XorMask(mid[4..size], crc(mid[4..HEAD])) + mid[size..]
    ensures now[..size] == Encode(crc, p) && now == Encode(crc, p) + mid[size..]
  {
    hide XorMask, WordLE, HeadBytes;
    assert |XorMask(mid[4..size], crc(mid[4..HEAD]))| == size - 4;
  }

  class FrmPkg {
    var crc32: bv32
    var ussid: bv32
    var seqno: nat
    var cmd: byte
    var res: byte
    var datasize: nat
    const data: array<byte>

    ghost predicate Valid()
      reads this
    {
      data.Length == MTU && seqno < SEQ_END && datasize < 0x1_0000
    }

    function Fields(): Pkg
      requires datasize <= data.Length
      reads this, data
    {
      Pkg(ussid, seqno, cmd, res, data[..datasize])
    }

    constructor ()
      ensures Valid() && fresh(data) && res == 0 && datasize == 0
    {
      crc32, ussid, seqno, cmd, res, datasize := 0, 0, 0, 0, 0, 0;
      data := new byte[MTU];
    }

    // The last lines of makepkg and remakepkg: checksum the head, store it in front, mask the rest.
    method Seal(crc: Crc, a: array<byte>, addr: nat, size: nat)
      requires HEAD <= size <= a.Length
      modifies this`crc32, a
      ensures a[..] == old(WordLE(crc(a[4..HEAD])) + XorMask(a[4..size], crc(a[4..HEAD])) + a[size..])
    {
      hide XorMask, WordLE;
      ghost var was := a[..];
      crc32 := crc(a[4..HEAD]);
      Store(a, 0, WordLE(crc32));
      ghost var mid := a[..];
      FastXor(a, addr, 4, size - 4, crc32);
      Sealed(was, mid, a[..], WordLE(crc32), size, crc32);
    }

    // makepkg(pout, sizeout, pdata, sizedata): lay down the head and data, checksum, mask in place.
    method MakePkg(crc: Crc, out: array<byte>, addr: nat, sizeout: nat, pdata: seq<byte>) returns (n: int)
      requires Valid() && sizeout <= out.Length && out != data
      modifies this, out
      ensures Valid() && ussid == old(ussid) && seqno == old(seqno) && cmd == old(cmd) && res == old(res)
      ensures datasize == if n == -1 then old(datasize) else |pdata|
      ensures match Make(crc, Pkg(ussid, seqno, cmd, res, pdata), sizeout)
              case None => n == -1 && out[..] == old(out[..])
              case Some(f) => n == |f| && out[..] == f + old(out[n..])
    {
      hide XorMask, WordLE, HeadBytes, Encode;
      if |pdata| > CONTENT || sizeout < HEAD + |pdata| {
        return -1;
      }
      ghost var was := out[..];
      crc32 := 0;
      datasize := |pdata|;
      var h := HeadBytes(Head(ussid, seqno, cmd, res, datasize));
      Store(out, 0, WordLE(crc32) + h);
      ghost var mid := out[..];
      Store(out, HEAD, pdata);
      ghost var laid := out[..];
      DataWritten(was, mid, laid, WordLE(crc32), h, pdata);
      Seal(crc, out, addr, HEAD + datasize);
      n := HEAD + datasize;
      Encoded(crc, Pkg(ussid, seqno, cmd, res, pdata), laid, out[..], n);
    }

    // The overload that sends the member data.
    method MakePkgOwn(crc: Crc, out: array<byte>, addr: nat, sizeout: nat) returns (n: int)
      requires Valid() && datasize <= data.Length && sizeout <= out.Length && out != data
      modifies this, out
      ensures Valid() && datasize == old(datasize) && Fields() == old(Fields())
      ensures match Make(crc, Fields(), sizeout)
              case None => n == -1 && out[..] == old(out[..])
              case Some(f) => n == |f| && out[..] == f + old(out[n..])
    {
      n := MakePkg(crc, out, addr, sizeout, data[..datasize]);
    }

    // ss >> _crc32, and the mask taken off what follows.
    method Unmask(a: array<byte>, addr: nat, size: nat)
      requires HEAD <= size <= a.Length
      modifies this`crc32, a
      ensures crc32 == UnWordLE(old(a[..4]))
      ensures a[..] == old(a[..4]) + XorMask(old(a[4..size]), crc32) + old(a[size..])
      ensures var u := XorMask(old(a[4..size]), crc32); a[4..HEAD] == u[..16] && a[HEAD..size] == u[16..]
    {
      hide XorMask, UnWordLE;
      ghost var was := a[..];
      crc32 := UnWordLE(a[..4]);
      FastXor(a, addr, 4, size - 4, crc32);
      Unmasked(was, a[..], size, crc32);
    }

    // ss >> _ussid >> _seqno >> _frmcmd >> _res >> _datasize
    method TakeFields(s: seq<byte>)
      requires data.Length == MTU && |s| == 16
      modifies this`ussid, this`seqno, this`cmd, this`res, this`datasize
      ensures Valid() && Head(ussid, seqno, cmd, res, datasize) == UnHead(s)
    {
      hide UnHead;
      UnHeadFits(s);
      var h := UnHead(s);
      ussid, seqno, cmd, res, datasize := h.ussid, h.seqno, h.cmd, h.res, h.datasize;
    }

    // parsepkg: unmasks the caller's buffer in place, then reads the fields and copies the data.
    method ParsePkg(crc: Crc, frm: array<byte>, addr: nat, size: nat) returns (r: int)
      requires Valid() && size <= frm.Length && frm != data
      modifies this, data, frm
      ensures Valid()
      ensures match Parse(crc, old(frm[..size]))
              case None => r == -1
              case Some(p) => r == 0 && datasize <= data.Length && Fields() == p
      ensures frm[..] == if HEAD <= size < MTU
                         then old(frm[..4]) + XorMask(old(frm[4..size]), UnWordLE(old(frm[..4]))) + old(frm[size..])
                         else old(frm[..])
    {
      hide XorMask, UnWordLE, UnHead, Encode;
      if size < HEAD || size >= MTU {
        return -1;
      }
      ghost var was, f := frm[..], frm[..size];
      assert f[..4] == frm[..4] && f[4..] == frm[4..size];
      Unmask(frm, addr, size);
      ghost var u := XorMask(f[4..], crc32);
      var c := crc(frm[4..HEAD]);
      if c != crc32 {
        return -1;
      }
      TakeFields(frm[4..HEAD]);
      if datasize + HEAD != size {
        return -1;
      }
      Store(data, 0, frm[HEAD..size]);
      assert data[..datasize] == u[16..];
      r := 0;
    }

    // parsepkghead: works on a copy of the first 20 bytes, the frame itself stays masked.
    method ParsePkgHead(crc: Crc, frm: array<byte>, size: nat) returns (r: int)
      requires Valid() && size <= frm.Length
      modifies this
      ensures Valid()
      ensures match ParseHead(crc, frm[..size])
              case None => r == -1
              case Some(h) => r == 0 && Head(ussid, seqno, cmd, res, datasize) == h
    {
      hide XorMask, UnWordLE, UnHead, Encode;
      if size < HEAD || size >= MTU {
        return -1;
      }
      ghost var f := frm[..size];
      var ubuf := new byte[24];
      Store(ubuf, 0, frm[..HEAD]);
      assert f[..4] == ubuf[..4] && f[4..HEAD] == ubuf[4..HEAD];
      crc32 := UnWordLE(ubuf[..4]);
      FastXor(ubuf, 0, 4, HEAD - 4, crc32);
      ghost var u := XorMask(f[4..HEAD], crc32);
      assert ubuf[4..HEAD] == u;
      var c := crc(ubuf[4..HEAD]);
      if c != crc32 {
        return -1;
      }
      TakeFields(ubuf[4..HEAD]);
      if datasize + HEAD != size {
        return -1;
      }
      r := 0;
    }

    // remakepkg: copies the frame into the member buffer and rewrites it there.
    method RemakePkg(crc: Crc, frm: seq<byte>, addr: nat) returns (ok: bool)
      requires Valid()
      modifies this, data
      ensures Valid()
      ensures match Remake(crc, frm)
              case None => !ok
              case Some(f) => ok && data[..|frm|] == f
    {
      hide XorMask, UnWordLE, UnHead, Encode;
      var size := |frm|;
      if size < HEAD || size > MTU {
        return false;
      }
      Store(data, 0, frm);
      ghost var was := data[..];
      assert was[..4] == frm[..4] && was[4..size] == frm[4..];
      Unmask(data, addr, size);
      TakeFields(data[4..HEAD]);
      if datasize + HEAD != size {
        return false;
      }
      res := res | 0x80;
      RepackOwn(crc, addr, size);
      ok := true;
    }

    // The second half of remakepkg: write the head fields back over the unmasked frame and seal it.
    method RepackOwn(crc: Crc, addr: nat, size: nat)
      requires Valid() && HEAD <= size <= MTU && size == HEAD + datasize
      modifies this`crc32, data
      ensures data[..size] == Encode(crc, Pkg(ussid, seqno, cmd, res, old(data[HEAD..size])))
    {
      hide XorMask, WordLE, HeadBytes, Encode;
      ghost var was := data[..];
      var h := HeadBytes(Head(ussid, seqno, cmd, res, datasize));
      Store(data, 0, WordLE(crc32) + h);
      HeadWritten(was, data[..], WordLE(crc32), h, size);
      ghost var mid := data[..];
      Seal(crc, data, addr, HEAD + datasize);
      Encoded(crc, Pkg(ussid, seqno, cmd, res, was[HEAD..size]), mid, data[..], size);
    }
  }
}
