/** The UCP frame format: a 20-byte head (CRC32, session, sequence number, command, reserve byte,
    data size), the payload, and everything after the CRC masked with the CRC. */
module UcpFrame {
  import opened Wrappers
  import opened Bytes

  const HEAD := 20          // SIZE_UCPHEAD
  const CONTENT := 1424     // SIZE_UDPCONTENT = 1492 - 48 - 20
  const MTU := 1500         // MAXSIZE_MTU
  const DAT: byte := 30     // FRMCMD_DAT
  const DATR: byte := 31    // FRMCMD_DATR
  const ACK: byte := 32     // FRMCMD_ACK
  const SEQ_END := 0x1_0000_0000_0000_0000

  // The checksum is a parameter: nothing below depends on which function it is.
  type Crc = seq<byte> -> bv32

  datatype Head = Head(ussid: bv32, seqno: nat, cmd: byte, res: byte, datasize: nat)
  {
    predicate Fits() { seqno < SEQ_END && datasize < 0x1_0000 }
  }

  datatype Pkg = Pkg(ussid: bv32, seqno: nat, cmd: byte, res: byte, data: seq<byte>)
  {
    predicate Fits() { seqno < SEQ_END && |data| < 0x1_0000 }

    function Header(): Head { Head(ussid, seqno, cmd, res, |data|) }
  }

  function HeadBytes(h: Head): (s: seq<byte>)
    ensures |s| == 16
  {
    WordLE(h.ussid) + LE(h.seqno, 8) + [h.cmd, h.res] + LE(h.datasize, 2)
  }

  function UnHead(s: seq<byte>): Head
    requires |s| == 16
  {
    Head(UnWordLE(s[..4]), UnLE(s[4..12]), s[12], s[13], UnLE(s[14..]))
  }

  lemma UnHeadFits(s: seq<byte>)
    requires |s| == 16
    ensures UnHead(s).Fits()
    ensures HeadBytes(UnHead(s)) == s
  {
    UnLERoundTrip(s[4..12]);
    UnLERoundTrip(s[14..]);
    UnWordLERoundTrip(s[..4]);
    assert Pow256(8) == SEQ_END && Pow256(2) == 0x1_0000;
  }

  lemma HeadRoundTrip(h: Head)
    requires h.Fits()
    ensures UnHead(HeadBytes(h)) == h
  {
    var s := HeadBytes(h);
    assert s[..4] == WordLE(h.ussid) && s[4..12] == LE(h.seqno, 8) && s[14..] == LE(h.datasize, 2);
    assert Pow256(8) == SEQ_END && Pow256(2) == 0x1_0000;
    LERoundTrip(h.seqno, 8);
    LERoundTrip(h.datasize, 2);
    WordLERoundTrip(h.ussid);
  }

  // The byte of the mask that meets position i: (umask >> ((i % 4) * 8)) & 0xFF.
  function MaskAt(m: bv32, i: nat): byte {
    if i % 4 == 0 then B0(m) else if i % 4 == 1 then B1(m) else if i % 4 == 2 then B2(m) else B3(m)
  }

  // Byte-wise exclusive or with the repeating 4-byte mask.
  function XorMask(s: seq<byte>, m: bv32): (r: seq<byte>)
    ensures |r| == |s|
  {
    seq(|s|, i requires 0 <= i < |s| => s[i] ^ MaskAt(m, i))
  }

  lemma XorTwice(a: byte, b: byte)
    ensures (a ^ b) ^ b == a
  {
  }

  lemma XorMaskInvolution(s: seq<byte>, m: bv32)
    ensures XorMask(XorMask(s, m), m) == s
  {
    forall i | 0 <= i < |s| ensures XorMask(XorMask(s, m), m)[i] == s[i] {
      XorTwice(s[i], MaskAt(m, i));
    }
  }

  // What makepkg lays down for these fields.
  function Encode(crc: Crc, p: Pkg): (f: seq<byte>)
    ensures |f| == HEAD + |p.data|
  {
    var h := HeadBytes(p.Header());
    WordLE(crc(h)) + XorMask(h + p.data, crc(h))
  }

  function Make(crc: Crc, p: Pkg, sizeout: nat): Option<seq<byte>> {
    if |p.data| > CONTENT || sizeout < HEAD + |p.data| then None else Some(Encode(crc, p))
  }

  // parsepkg: unmask, check the CRC over the 16 head bytes, check the length field.
  function Parse(crc: Crc, f: seq<byte>): Option<Pkg> {
    if |f| < HEAD || |f| >= MTU then None else
    var c := UnWordLE(f[..4]);
    var u := XorMask(f[4..], c);
    if crc(u[..16]) != c then None else
    var h := UnHead(u[..16]);
    if h.datasize + HEAD != |f| then None else
    Some(Pkg(h.ussid, h.seqno, h.cmd, h.res, u[16..]))
  }

  // parsepkghead: the same checks on a 20-byte copy.
  function ParseHead(crc: Crc, f: seq<byte>): Option<Head> {
    if |f| < HEAD || |f| >= MTU then None else
    var c := UnWordLE(f[..4]);
    var u := XorMask(f[4..HEAD], c);
    if crc(u) != c then None else
    var h := UnHead(u);
    if h.datasize + HEAD != |f| then None else Some(h)
  }

  // remakepkg: unmask, check only the length field, set the top reserve bit, mask again.
  function Remake(crc: Crc, f: seq<byte>): Option<seq<byte>> {
    if |f| < HEAD || |f| > MTU then None else
    var u := XorMask(f[4..], UnWordLE(f[..4]));
    var h := UnHead(u[..16]);
    if h.datasize + HEAD != |f| then None else
    Some(Encode(crc, Pkg(h.ussid, h.seqno, h.cmd, h.res | 0x80, u[16..])))
  }

  lemma EncodedParts(crc: Crc, p: Pkg)
    ensures var f := Encode(crc, p); var h := HeadBytes(p.Header());
            UnWordLE(f[..4]) == crc(h) && XorMask(f[4..], crc(h)) == h + p.data
  {
    var f, h := Encode(crc, p), HeadBytes(p.Header());
    assert f[..4] == WordLE(crc(h)) && f[4..] == XorMask(h + p.data, crc(h));
    WordLERoundTrip(crc(h));
    XorMaskInvolution(h + p.data, crc(h));
  }

  // Decoding undoes encoding for every frame below the size limit of the receive buffer.
  lemma ParseEncode(crc: Crc, p: Pkg)
    requires p.Fits() && |p.data| + HEAD < MTU
    ensures Parse(crc, Encode(crc, p)) == Some(p)
  {
    EncodedParts(crc, p);
    var h := HeadBytes(p.Header());
    assert (h + p.data)[..16] == h && (h + p.data)[16..] == p.data;
    HeadRoundTrip(p.Header());
  }

  // A frame is the encoding of whatever it parses to: no two frames carry the same fields.
  lemma EncodeParse(crc: Crc, f: seq<byte>)
    requires Parse(crc, f).Some?
    ensures Parse(crc, f).value.Fits()
    ensures Encode(crc, Parse(crc, f).value) == f
  {
    var c := UnWordLE(f[..4]);
    var u := XorMask(f[4..], c);
    UnHeadFits(u[..16]);
    UnWordLERoundTrip(f[..4]);
    assert u[..16] + u[16..] == u;
    XorMaskInvolution(f[4..], c);
    assert f == f[..4] + f[4..];
  }

  // The head read from the copy is the head of the full parse, on every input, errors included.
  lemma ParseHeadAgrees(crc: Crc, f: seq<byte>)
    ensures Parse(crc, f).Some? <==> ParseHead(crc, f).Some?
    ensures Parse(crc, f).Some? ==> ParseHead(crc, f) == Some(Parse(crc, f).value.Header())
  {
    if HEAD <= |f| < MTU {
      var c := UnWordLE(f[..4]);
      assert XorMask(f[4..HEAD], c) == XorMask(f[4..], c)[..16];
    }
  }

  // A remade frame parses to the same fields and data with only the top reserve bit set; remaking
  // twice changes nothing more.
  lemma RemakeKeepsFields(crc: Crc, f: seq<byte>)
    requires Parse(crc, f).Some?
    ensures Remake(crc, f).Some?
    ensures var p := Parse(crc, f).value; Parse(crc, Remake(crc, f).value) == Some(p.(res := p.res | 0x80))
    ensures Remake(crc, Remake(crc, f).value) == Remake(crc, f)
  {
    var p := Parse(crc, f).value;
    EncodeParse(crc, f);
    var q := p.(res := p.res | 0x80);
    assert Remake(crc, f) == Some(Encode(crc, q));
    ParseEncode(crc, q);
    assert q.res | 0x80 == q.res;
  }

  // For instance a frame with the checksum of another function: it does not parse, but it is remade into one
  // that does.
  lemma WrongCrcRemade(crc: Crc, other: Crc, p: Pkg)
    requires p.Fits() && |p.data| + HEAD < MTU && crc(HeadBytes(p.Header())) != other(HeadBytes(p.Header()))
    ensures var f, q := Encode(other, p), p.(res := p.res | 0x80);
            Parse(crc, f) == None && Remake(crc, f) == Some(Encode(crc, q)) && Parse(crc, Encode(crc, q)) == Some(q)
  {
    EncodedParts(other, p);
    var h := HeadBytes(p.Header());
    assert (h + p.data)[..16] == h && (h + p.data)[16..] == p.data;
    HeadRoundTrip(p.Header());
    ParseEncode(crc, p.(res := p.res | 0x80));
  }

  // remakepkg does not check the CRC of its input, so its output parses even when the input did not.
  lemma RemakeAlwaysParses(crc: Crc, f: seq<byte>)
    requires Remake(crc, f).Some?
    ensures |Remake(crc, f).value| == |f|
    ensures Parse(crc, Remake(crc, f).value).Some? <==> |f| < MTU
  {
    var u := XorMask(f[4..], UnWordLE(f[..4]));
    var h := UnHead(u[..16]);
    UnHeadFits(u[..16]);
    if |f| < MTU {
      ParseEncode(crc, Pkg(h.ussid, h.seqno, h.cmd, h.res | 0x80, u[16..]));
    }
  }
}
