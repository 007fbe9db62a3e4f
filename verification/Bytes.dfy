/** The bytes as numbers. */
module ByteValues {
  function Nibble(m: nat): (b: bv8)
    requires m < 16
    ensures b < 16 && b as nat == m
  {
    if m < 8 then
      if m < 4 then if m < 2 then if m == 0 then 0 else 1 else if m == 2 then 2 else 3
      else if m < 6 then if m == 4 then 4 else 5 else if m == 6 then 6 else 7
    else
      if m < 12 then if m < 10 then if m == 8 then 8 else 9 else if m == 10 then 10 else 11
      else if m < 14 then if m == 12 then 12 else 13 else if m == 14 then 14 else 15
  }

  function OfNibbles(hi: bv8, lo: bv8): (b: bv8)
    requires hi < 16 && lo < 16
    ensures b as nat == 16 * (hi as nat) + lo as nat
  {
    (hi << 4) | lo
  }

  // The byte with this value.
  function ByteOf(m: nat): (b: bv8)
    requires m < 256
    ensures b as nat == m
  {
    OfNibbles(Nibble(m / 16), Nibble(m % 16))
  }

  lemma SameByte(b: bv8, c: bv8)
    requires b as nat == c as nat
    ensures b == c
  {
  }
}

/** Bytes, 32-bit words and little-endian integers, as the wire formats use them. */
module Bytes {
  import opened ByteValues

  type byte = bv8

  function Lo(n: nat): (b: byte)
    ensures b as nat == n % 256
  {
    ByteOf(n % 256)
  }

  // The four bytes of a 32-bit word, lowest first.
  function B0(w: bv32): byte { (w & 0xFF) as bv8 }
  function B1(w: bv32): byte { ((w >> 8) & 0xFF) as bv8 }
  function B2(w: bv32): byte { ((w >> 16) & 0xFF) as bv8 }
  function B3(w: bv32): byte { ((w >> 24) & 0xFF) as bv8 }

  function Word(b0: byte, b1: byte, b2: byte, b3: byte): bv32 {
    (b0 as bv32) | ((b1 as bv32) << 8) | ((b2 as bv32) << 16) | ((b3 as bv32) << 24)
  }

  lemma WordBytes(b0: byte, b1: byte, b2: byte, b3: byte)
    ensures var w := Word(b0, b1, b2, b3); B0(w) == b0 && B1(w) == b1 && B2(w) == b2 && B3(w) == b3
  {
  }

  lemma BytesWord(w: bv32)
    ensures Word(B0(w), B1(w), B2(w), B3(w)) == w
  {
  }

  // Exclusive or acts on each byte of a word.
  lemma WordXor(w: bv32, m: bv32)
    ensures B0(w ^ m) == B0(w) ^ B0(m) && B1(w ^ m) == B1(w) ^ B1(m)
    ensures B2(w ^ m) == B2(w) ^ B2(m) && B3(w ^ m) == B3(w) ^ B3(m)
  {
  }

  function WordLE(w: bv32): (s: seq<byte>)
    ensures |s| == 4
  {
    [B0(w), B1(w), B2(w), B3(w)]
  }

  function UnWordLE(s: seq<byte>): bv32
    requires |s| == 4
  {
    Word(s[0], s[1], s[2], s[3])
  }

  lemma WordLERoundTrip(w: bv32)
    ensures UnWordLE(WordLE(w)) == w
  {
    BytesWord(w);
  }

  lemma UnWordLERoundTrip(s: seq<byte>)
    requires |s| == 4
    ensures WordLE(UnWordLE(s)) == s
  {
    WordBytes(s[0], s[1], s[2], s[3]);
  }

  function Pow256(k: nat): (p: nat)
    ensures p > 0
  {
    if k == 0 then 1 else 256 * Pow256(k - 1)
  }

  // n modulo 256^k in k bytes, lowest first.
  function LE(n: nat, k: nat): (s: seq<byte>)
    ensures |s| == k
  {
    if k == 0 then [] else [Lo(n)] + LE(n / 256, k - 1)
  }

  function UnLE(s: seq<byte>): nat {
    if s == [] then 0 else s[0] as nat + 256 * UnLE(s[1..])
  }

  lemma TwoBytes(n: nat)
    requires n < 0x1_0000
    ensures Lo(n / 256) as nat == n / 256 && Lo(n) as nat == n % 256 && 256 * (n / 256) + n % 256 == n
  {
    hide Lo;
    assert n / 256 % 256 == n / 256;
  }

  lemma {:induction false} LERoundTrip(n: nat, k: nat)
    requires n < Pow256(k)
    ensures UnLE(LE(n, k)) == n
  {
    if k > 0 {
      LERoundTrip(n / 256, k - 1);
      assert LE(n, k)[1..] == LE(n / 256, k - 1);
    }
  }

  lemma {:induction false} UnLERoundTrip(s: seq<byte>)
    ensures UnLE(s) < Pow256(|s|)
    ensures LE(UnLE(s), |s|) == s
  {
    hide LE, UnLE;
    if s == [] {
      NoBytes();
    } else {
      UnLERoundTrip(s[1..]);
      FirstByte(s);
      MoreBytes(s[0], UnLE(s[1..]), |s| - 1);
      assert s == [s[0]] + s[1..];
    }
  }

  lemma NoBytes()
    ensures UnLE([]) == 0 && LE(0, 0) == []
  {
  }

  lemma FirstByte(s: seq<byte>)
    requires s != []
    ensures UnLE(s) == s[0] as nat + 256 * UnLE(s[1..])
  {
  }

  lemma MoreBytes(b: byte, q: nat, k: nat)
    ensures LE(b as nat + 256 * q, k + 1) == [b] + LE(q, k)
  {
    hide Lo;
    LowByte(b, q);
  }

  lemma LowByte(b: byte, q: nat)
    ensures Lo(b as nat + 256 * q) == b && (b as nat + 256 * q) / 256 == q
  {
    Split256(b as nat, q);
    LoIs(b, b as nat + 256 * q);
  }

  lemma Split256(v: nat, q: nat)
    requires v < 256
    ensures (v + 256 * q) % 256 == v && (v + 256 * q) / 256 == q
  {
  }

  lemma LoIs(b: byte, n: nat)
    requires b as nat == n % 256
    ensures Lo(n) == b
  {
    hide Lo;
    SameByte(Lo(n), b);
  }
}

/** The buffer a serializer writes to. */
module Outputs {
  import opened Bytes

  class Out {
    var data: seq<byte>

    constructor ()
      ensures data == []
    {
      data := [];
    }

    method PushBack(b: byte)
      modifies this
      ensures data == old(data) + [b]
    {
      data := data + [b];
    }

    method Append(s: seq<byte>)
      modifies this
      ensures data == old(data) + s
    {
      data := data + s;
    }
  }
}
