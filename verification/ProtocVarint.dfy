/** Base 128 varints and zigzag of ec_protoc.h. */
module Varints {
  import opened Wrappers
  import opened ByteValues
  import opened Bytes
  import opened Powers

  datatype Width = W32 | W64
  {
    function Bits(): nat { if W32? then 32 else 64 }
    function Size(): nat { if W32? then 4 else 8 }
    function Limit(): (l: nat)
      ensures l > 0
    {
      if W32? then 0x1_0000_0000 else 0x1_0000_0000_0000_0000
    }
  }

  function Varint(v: nat): (s: seq<byte>)
    ensures |s| > 0
  {
    if v < 128 then [ByteOf(v)] else [ByteOf(128 + v % 128)] + Varint(v / 128)
  }

  // get_varint, nbit bits in: the groups from here on as a number, and their count.
  function Groups(w: Width, s: seq<byte>, nbit: nat): (r: Option<(nat, nat)>)
    ensures r.Some? ==> 0 < r.value.1 <= |s|
  {
    if s == [] || nbit >= w.Bits() then None else
    var b := s[0] as nat;
    if b < 128 then Some((b, 1)) else
    match Groups(w, s[1..], nbit + 7)
    case None => None
    case Some((v, n)) => Some((b - 128 + 128 * v, n + 1))
  }

  // The bits above the width are shifted out.
  function ReadVarint(w: Width, s: seq<byte>): (r: Option<(nat, nat)>)
    ensures r.Some? ==> r.value.0 < w.Limit() && 0 < r.value.1 <= |s|
  {
    match Groups(w, s, 0)
    case None => None
    case Some((v, n)) => Some((v % w.Limit(), n))
  }

  lemma Pow2Of8()
    ensures Pow2(0) == 1 && Pow2(7) == 128 && Pow2(8) == 256
  {
  }

  lemma LimitIsPow2(w: Width)
    ensures Pow2(w.Bits()) == w.Limit()
  {
    hide Pow2, Pow;
    Pow2Of8();
    PowAdd2(8, 8);
    PowAdd2(16, 16);
    PowAdd2(32, 32);
  }

  // v >> nbit and v << nbit
  function Shr(v: nat, nbit: nat): nat { v / Pow2(nbit) }
  function Shl(v: nat, nbit: nat): nat { v * Pow2(nbit) }

  lemma Shift7(v: nat, nbit: nat)
    ensures Pow2(nbit + 7) == 128 * Pow2(nbit)
    ensures v / Pow2(nbit + 7) == v / Pow2(nbit) / 128
  {
    hide Pow2, Pow;
    Pow2Of8();
    PowAdd2(7, nbit);
    DivDiv(v, Pow2(nbit));
  }

  lemma DivDiv(v: nat, p: nat)
    requires p > 0
    ensures v / (128 * p) == v / p / 128
  {
    var q, r := v / p, v % p;
    var a, b := q / 128, q % 128;
    Split(v, p, q, r, a, b);
    Quotient(v, 128 * p, a, b * p + r);
  }

  lemma Split(v: nat, p: nat, q: nat, r: nat, a: nat, b: nat)
    requires v == q * p + r && r < p && q == 128 * a + b && b < 128
    ensures v == a * (128 * p) + (b * p + r) && 0 <= b * p + r < 128 * p
  {
    assert (128 * a + b) * p == a * (128 * p) + b * p;
    MulLe(b, p, 127, p);
  }

  lemma Quotient(v: nat, m: nat, a: nat, r: nat)
    requires m > 0 && r < m && v == a * m + r
    ensures v / m == a
  {
    var q := v / m;
    Below(q, a, m, v % m, r);
    Below(a, q, m, r, v % m);
  }

  lemma Below(q: nat, a: nat, m: nat, s: nat, r: nat)
    requires s < m && r < m && q * m + s == a * m + r
    ensures q <= a
  {
    var d := a + 1 - q;
    assert d * m == a * m + m - q * m;
    assert d * m > 0;
  }

  lemma FirstGroup(v: nat)
    requires v >= 128
    ensures Varint(v)[0] as nat == 128 + v % 128 && Varint(v)[1..] == Varint(v / 128)
  {
  }

  lemma LastGroup(v: nat)
    requires v < 128
    ensures |Varint(v)| == 1 && Varint(v)[0] as nat == v
  {
  }

  // A value that fits what is left of the width has its groups read back, whatever follows them.
  lemma {:induction false} GroupsRoundTrip(w: Width, v: nat, rest: seq<byte>, nbit: nat)
    requires nbit < w.Bits() && v * Pow2(nbit) < Pow2(w.Bits())
    ensures Groups(w, Varint(v) + rest, nbit) == Some((v, |Varint(v)|))
    decreases v
  {
    hide Varint, Pow2;
    var s := Varint(v) + rest;
    if v < 128 {
      LastGroup(v);
    } else {
      Smaller(v, nbit, w.Bits());
      GroupsRoundTrip(w, v / 128, rest, nbit + 7);
      FirstGroup(v);
      assert s[1..] == Varint(v / 128) + rest;
      assert v % 128 + 128 * (v / 128) == v;
    }
  }

  lemma Smaller(v: nat, nbit: nat, bits: nat)
    requires v >= 128 && v * Pow2(nbit) < Pow2(bits)
    ensures nbit + 7 < bits && (v / 128) * Pow2(nbit + 7) < Pow2(bits)
  {
    Shift7(v, nbit);
    hide Pow2;
    var p := Pow2(nbit);
    MulLe(128, p, v, p);
    assert 128 * (v / 128) <= v;
    MulLe(128 * (v / 128), p, v, p);
    MulAssoc(v / 128, 128, p);
    if nbit + 7 >= bits {
      PowMonotone2(bits, nbit + 7);
    }
  }

  /** Every value of the width is read back, and nothing of what follows is touched. */
  lemma VarintRoundTrip(w: Width, v: nat, rest: seq<byte>)
    requires v < w.Limit()
    ensures ReadVarint(w, Varint(v) + rest) == Some((v, |Varint(v)|))
  {
    hide Pow2, Pow, Varint, Groups;
    LimitIsPow2(w);
    Pow2Of8();
    GroupsRoundTrip(w, v, rest, 0);
  }

  lemma {:induction false} VarintMonotone(a: nat, b: nat)
    requires a <= b
    ensures |Varint(a)| <= |Varint(b)|
    decreases a
  {
    if a >= 128 {
      VarintMonotone(a / 128, b / 128);
    }
  }

  lemma VarintStep(v: nat)
    ensures |Varint(v)| == if v < 128 then 1 else 1 + |Varint(v / 128)|
  {
  }

  // What is read took at least as many bytes as writing it takes.
  lemma {:induction false} ShortestGroups(w: Width, s: seq<byte>, nbit: nat)
    requires Groups(w, s, nbit).Some?
    ensures var (v, n) := Groups(w, s, nbit).value; |Varint(v)| <= n
    decreases |s|
  {
    hide ByteOf, Varint;
    var (v, n) := Groups(w, s, nbit).value;
    var b := s[0] as nat;
    if b >= 128 {
      ShortestGroups(w, s[1..], nbit + 7);
      var more := Groups(w, s[1..], nbit + 7).value.0;
      Quotient(v, 128, more, b - 128);
      VarintStep(v);
    } else {
      VarintStep(v);
    }
  }

  lemma ShortestVarint(w: Width, s: seq<byte>)
    requires ReadVarint(w, s).Some?
    ensures var (u, n) := ReadVarint(w, s).value; |Varint(u)| <= n
  {
    hide Varint, Groups;
    ShortestGroups(w, s, 0);
    var v := Groups(w, s, 0).value.0;
    Reduced(v, w.Limit());
    VarintMonotone(v % w.Limit(), v);
  }

  lemma Reduced(v: nat, m: nat)
    requires m > 0
    ensures v % m <= v
  {
    if v < m {
      assert v % m == v;
    }
  }

  // ---- zigzag ----

  // Exclusive or of the low bits.
  function BitXor(x: nat, y: nat, bits: nat): nat {
    if bits == 0 then 0 else (x % 2 + y % 2) % 2 + 2 * BitXor(x / 2, y / 2, bits - 1)
  }

  // With all ones it is the complement.
  lemma {:induction false} XorOnes(x: nat, bits: nat)
    requires x < Pow2(bits)
    ensures BitXor(x, Pow2(bits) - 1, bits) == Pow2(bits) - 1 - x
    decreases bits
  {
    hide Pow2;
    if bits == 0 {
      Pow2Of8();
    } else {
      Pow2Step(bits - 1);
      XorOnes(x / 2, bits - 1);
      OnesHalved(Pow2(bits - 1));
      OtherBit(x);
    }
  }

  lemma OtherBit(x: nat)
    ensures (x % 2 + 1) % 2 == 1 - x % 2 && x % 2 + 2 * (x / 2) == x
  {
  }

  lemma OnesHalved(p: nat)
    requires p > 0
    ensures (2 * p - 1) % 2 == 1 && (2 * p - 1) / 2 == p - 1
  {
  }

  lemma {:induction false} XorZero(x: nat, bits: nat)
    requires x < Pow2(bits)
    ensures BitXor(x, 0, bits) == x
    decreases bits
  {
    hide Pow2;
    if bits == 0 {
      Pow2Of8();
    } else {
      Pow2Step(bits - 1);
      XorZero(x / 2, bits - 1);
    }
  }

  // The pattern of -1 or 0: v >> 31 or 63 of a negative value or another one.
  function Sign(w: Width, minus: bool): nat { if minus then w.Limit() - 1 else 0 }

  // Exclusive or with a sign.
  function XorSign(w: Width, x: nat, minus: bool): (r: nat)
    requires x < w.Limit()
    ensures r < w.Limit() && r == if minus then w.Limit() - 1 - x else x
  {
    hide Pow2, BitXor;
    LimitIsPow2(w);
    if minus then XorOnes(x, w.Bits()); BitXor(x, Sign(w, minus), w.Bits())
    else XorZero(x, w.Bits()); BitXor(x, Sign(w, minus), w.Bits())
  }

  predicate IsSigned(w: Width, v: int) {
    -(w.Limit() / 2) <= v < w.Limit() / 2
  }

  // The value of a signed type with the pattern x.
  function ToSigned(w: Width, x: nat): (v: int)
    requires x < w.Limit()
    ensures IsSigned(w, v) && v % w.Limit() == x
  {
    if x < w.Limit() / 2 then x else x - w.Limit()
  }

  // (v << 1) ^ (v >> 31 or 63)
  function ZigZag(w: Width, v: int): (u: nat)
    requires IsSigned(w, v)
    ensures u < w.Limit()
  {
    XorSign(w, (2 * v) % w.Limit(), v < 0)
  }

  // (v >> 1) ^ -(v & 1)
  function UnZigZag(w: Width, u: nat): (v: int)
    requires u < w.Limit()
    ensures IsSigned(w, v)
  {
    ToSigned(w, XorSign(w, u / 2, u % 2 == 1))
  }

  // x modulo m, for x at most once around.
  lemma Wrapped(w: Width, x: int)
    requires -(w.Limit() as int) <= x < w.Limit()
    ensures x % w.Limit() == if x < 0 then x + w.Limit() else x
  {
    match w
    case W32 =>
    case W64 =>
  }

  /** Zigzag numbers 0, -1, 1, -2, ... from 0 on, and is undone. */
  lemma ZigZagMeaning(w: Width, v: int)
    requires IsSigned(w, v)
    ensures ZigZag(w, v) == if v >= 0 then 2 * v else -2 * v - 1
    ensures UnZigZag(w, ZigZag(w, v)) == v
  {
    hide XorSign, ToSigned;
    Wrapped(w, 2 * v);
    var u := ZigZag(w, v);
    if v >= 0 {
      assert u / 2 == v && u % 2 == 0;
    } else {
      assert u / 2 == -v - 1 && u % 2 == 1;
    }
    Patterns(w, v);
  }

  // A value is the signed reading of its pattern.
  lemma Patterns(w: Width, v: int)
    requires IsSigned(w, v)
    ensures ToSigned(w, if v >= 0 then v else v + w.Limit()) == v
  {
  }

  // Every code is met.
  lemma ZigZagOnto(w: Width, u: nat)
    requires u < w.Limit()
    ensures ZigZag(w, UnZigZag(w, u)) == u
  {
    hide XorSign, ToSigned, ZigZag;
    var v := if u % 2 == 0 then u / 2 else -(u / 2) - 1;
    Patterns(w, v);
    ZigZagMeaning(w, v);
    assert UnZigZag(w, u) == v;
  }
}
