/** struct DiyFp of dtoa_milo.h: a 64-bit significand with a binary exponent; the decoding of a
    double, the rounded product, normalization and the two boundaries. */
module DiyFloat {
  import opened Powers

  const TWO32 := 0x1_0000_0000
  const TWO63 := 0x8000_0000_0000_0000
  const TWO64 := 0x1_0000_0000_0000_0000
  const HIDDEN := 0x10_0000_0000_0000        // kDpHiddenBit = 2^52
  const TWO53 := 0x20_0000_0000_0000
  const TWO54 := 0x40_0000_0000_0000
  const BIAS := 0x3FF + 52                   // kDpExponentBias
  const INFINITY := 0x7FF0_0000_0000_0000    // the bits of +inf; smaller non-zero bits are finite

  datatype DiyFp = DiyFp(f: nat, e: int)
  {
    predicate Fits() { f < TWO64 }

    ghost function Value(): real { f as real * PowR(2, e) }
  }

  // DiyFp(double d), for the bits of a double with sign 0.
  function FromBits(bits: nat): DiyFp {
    var biased := bits / HIDDEN % 0x800;
    var significand := bits % HIDDEN;
    if biased != 0 then DiyFp(significand + HIDDEN, biased - BIAS) else DiyFp(significand, -BIAS + 1)
  }

  // operator*: the upper half of the 128-bit product, rounded.
  function Mul(x: DiyFp, y: DiyFp): DiyFp {
    var p := x.f * y.f;
    var h, l := p / TWO64, p % TWO64;
    DiyFp(if l >= TWO63 then h + 1 else h, x.e + y.e + 64)
  }

  // The branch without 128-bit integers: four 32-bit products.
  function MulHalves(x: DiyFp, y: DiyFp): DiyFp {
    var a, b, c, d := x.f / TWO32, x.f % TWO32, y.f / TWO32, y.f % TWO32;
    var ac, bc, ad, bd := a * c, b * c, a * d, b * d;
    var tmp := bd / TWO32 + ad % TWO32 + bc % TWO32 + 0x8000_0000;
    DiyFp(ac + ad / TWO32 + bc / TWO32 + tmp / TWO32, x.e + y.e + 64)
  }

  // The rounded product is within half a unit of the exact one, and fits.
  lemma MulError(x: DiyFp, y: DiyFp)
    requires x.Fits() && y.Fits()
    ensures var h := Mul(x, y).f; 2 * h * TWO64 - TWO64 <= 2 * (x.f * y.f) < 2 * h * TWO64 + TWO64
    ensures Mul(x, y).Fits()
  {
    var p := x.f * y.f;
    MulLe(x.f, y.f, TWO64 - 1, TWO64 - 1);
    assert p == p / TWO64 * TWO64 + p % TWO64;
  }

  lemma SplitProduct(a: nat, b: nat, c: nat, d: nat)
    ensures (a * TWO32 + b) * (c * TWO32 + d) == a * c * TWO64 + (a * d + b * c) * TWO32 + b * d
  {
    calc {
      (a * TWO32 + b) * (c * TWO32 + d);
      (a * TWO32) * (c * TWO32 + d) + b * (c * TWO32 + d);
      a * c * TWO64 + a * d * TWO32 + b * c * TWO32 + b * d;
    }
  }

  // Both branches of operator* compute the same product.
  lemma MulHalvesIsMul(x: DiyFp, y: DiyFp)
    requires x.Fits() && y.Fits()
    ensures MulHalves(x, y) == Mul(x, y)
  {
    var a, b, c, d := x.f / TWO32, x.f % TWO32, y.f / TWO32, y.f % TWO32;
    SplitProduct(a, b, c, d);
    HalvesRound(a * c, a * d, b * c, b * d);
  }

  lemma HalvesRound(ac: nat, ad: nat, bc: nat, bd: nat)
    ensures var p := ac * TWO64 + (ad + bc) * TWO32 + bd;
            var tmp := bd / TWO32 + ad % TWO32 + bc % TWO32 + 0x8000_0000;
            ac + ad / TWO32 + bc / TWO32 + tmp / TWO32 == p / TWO64 + if p % TWO64 >= TWO63 then 1 else 0
  {
  }

  // Shifting left until bit 63 is set keeps the value.
  function Normalized(x: DiyFp): (n: DiyFp)
    requires 0 < x.f < TWO64
    ensures TWO63 <= n.f < TWO64
    ensures n.e <= x.e
    decreases TWO64 - x.f
  {
    if x.f >= TWO63 then x else Normalized(DiyFp(2 * x.f, x.e - 1))
  }

  // n is f shifted left by k.
  predicate Shifted(n: nat, f: nat, k: nat) { n == f * Pow2(k) }

  lemma {:induction false} NormalizedScales(x: DiyFp)
    requires 0 < x.f < TWO64
    ensures Shifted(Normalized(x).f, x.f, x.e - Normalized(x).e)
    decreases TWO64 - x.f
  {
    hide Shifted, Normalized;
    if x.f >= TWO63 {
      NotShifted(x);
    } else {
      NormalizedStep(x);
      NormalizedScales(DiyFp(2 * x.f, x.e - 1));
      ShiftedOnce(Normalized(x).f, x.f, x.e - 1 - Normalized(x).e);
    }
  }

  lemma NotShifted(x: DiyFp)
    requires TWO63 <= x.f < TWO64
    ensures Normalized(x) == x && Shifted(x.f, x.f, 0)
  {
    assert Pow2(0) == 1;
  }

  lemma NormalizedStep(x: DiyFp)
    requires 0 < x.f < TWO63
    ensures Normalized(x) == Normalized(DiyFp(2 * x.f, x.e - 1))
  {
  }

  lemma ShiftedOnce(n: nat, f: nat, k: nat)
    requires Shifted(n, 2 * f, k)
    ensures Shifted(n, f, k + 1)
  {
    assert Pow2(k + 1) == 2 * Pow2(k);
    hide Pow2, Pow;
    MulAssoc(f, 2, Pow2(k));
  }

  lemma NormalizedUnique(x: DiyFp, k: nat)
    requires 0 < x.f && TWO63 <= x.f * Pow2(k) < TWO64
    ensures x.f < TWO64
    ensures Normalized(x) == DiyFp(x.f * Pow2(k), x.e - k)
    decreases k
  {
    if k == 0 {
      assert x.f * Pow2(0) == x.f;
    } else {
      assert Pow2(k) == 2 * Pow2(k - 1);
      assert x.f * Pow2(k) == (2 * x.f) * Pow2(k - 1) >= 2 * x.f by { MulLe(2 * x.f, 1, 2 * x.f, Pow2(k - 1)); }
      assert x.f < TWO63;
      NormalizedUnique(DiyFp(2 * x.f, x.e - 1), k - 1);
    }
  }

  // Normalize: shift until bit 52, then by the remaining eleven bits.
  method Normalize(x: DiyFp) returns (res: DiyFp)
    requires 0 < x.f < TWO53
    ensures res == Normalized(x)
  {
    res := x;
    ghost var k := 0;
    while res.f / HIDDEN % 2 == 0
      invariant 0 < res.f < TWO53 && res == DiyFp(x.f * Pow2(k), x.e - k)
      decreases TWO53 - res.f
    {
      assert Pow2(k + 1) == 2 * Pow2(k);
      assert x.f * Pow2(k + 1) == 2 * (x.f * Pow2(k));
      res := DiyFp(2 * res.f, res.e - 1);
      k := k + 1;
    }
    PowAdd(2, k, 11);
    assert Pow2(11) == 2048;
    assert x.f * Pow2(k + 11) == x.f * Pow2(k) * 2048;
    NormalizedUnique(x, k + 11);
    res := DiyFp(res.f * 2048, res.e - 11);
  }

  // NormalizeBoundary: shift until bit 53, then by the remaining ten bits.
  method NormalizeBoundary(x: DiyFp) returns (res: DiyFp)
    requires 0 < x.f < TWO54
    ensures res == Normalized(x)
  {
    res := x;
    ghost var k := 0;
    while res.f / TWO53 % 2 == 0
      invariant 0 < res.f < TWO54 && res == DiyFp(x.f * Pow2(k), x.e - k)
      decreases TWO54 - res.f
    {
      assert Pow2(k + 1) == 2 * Pow2(k);
      assert x.f * Pow2(k + 1) == 2 * (x.f * Pow2(k));
      res := DiyFp(2 * res.f, res.e - 1);
      k := k + 1;
    }
    PowAdd(2, k, 10);
    assert Pow2(10) == 1024;
    assert x.f * Pow2(k + 10) == x.f * Pow2(k) * 1024;
    NormalizedUnique(x, k + 10);
    res := DiyFp(res.f * 1024, res.e - 10);
  }

  // The lower boundary before it is aligned with the upper one.
  function LowerBoundary(v: DiyFp): DiyFp {
    if v.f == HIDDEN then DiyFp(4 * v.f - 1, v.e - 2) else DiyFp(if v.f > 0 then 2 * v.f - 1 else 0, v.e - 1)
  }

  function UpperBoundary(v: DiyFp): DiyFp {
    DiyFp(2 * v.f + 1, v.e - 1)
  }

  // mi.f <<= mi.e - pl.e
  function Aligned(x: DiyFp, e: int): DiyFp
    requires e <= x.e
  {
    DiyFp(x.f * Pow2(x.e - e), e)
  }

  // The boundaries, on the exponent of the normalized upper one.
  function Boundaries(v: DiyFp): (b: (DiyFp, DiyFp))
    requires 0 < v.f < TWO53
  {
    var plus := Normalized(UpperBoundary(v));
    NormalizedExponent(v);
    (Aligned(LowerBoundary(v), plus.e), plus)
  }

  // The exponent of the normalized upper boundary is that of the normalized value, at least ten below v's.
  lemma NormalizedExponent(v: DiyFp)
    requires 0 < v.f < TWO53
    ensures Normalized(UpperBoundary(v)).e == Normalized(v).e <= v.e - 11
  {
    hide Normalized, Shifted;
    NormalizedScales(v);
    UpperNormalized(v.f, v.e, Normalized(v).f, v.e - Normalized(v).e);
  }

  lemma UpperNormalized(f: nat, e: int, n: nat, k: nat)
    requires 0 < f < TWO53 && Shifted(n, f, k) && TWO63 <= n < TWO64
    ensures Normalized(DiyFp(2 * f + 1, e - 1)).e == e - k && k >= 11
  {
    hide Normalized, Pow, Pow2;
    ShiftAtLeast(f, k);
    Doubled(f, k);
    UpperStillFits(f, k);
    NormalizedUnique(DiyFp(2 * f + 1, e - 1), k - 1);
  }

  // 53 bits reach bit 63 only by eleven shifts or more.
  lemma ShiftAtLeast(f: nat, k: nat)
    requires f < TWO53 && TWO63 <= f * Pow2(k)
    ensures k >= 11
  {
    if k <= 10 {
      PowMonotone2(k, 10);
      assert Pow2(10) == 1024;
      hide Pow, Pow2;
      MulLe(f, Pow2(k), f, 1024);
    }
  }

  lemma Doubled(f: nat, k: nat)
    requires k > 0
    ensures (2 * f + 1) * Pow2(k - 1) == f * Pow2(k) + Pow2(k - 1)
  {
    assert Pow2(k) == 2 * Pow2(k - 1);
    var p := Pow2(k - 1);
    hide Pow, Pow2;
    DoubledTimes(f, p);
  }

  lemma DoubledTimes(f: nat, p: nat)
    ensures (2 * f + 1) * p == f * (2 * p) + p
  {
  }

  lemma Pow2Of64()
    ensures Pow2(32) == TWO32 && Pow2(63) == TWO63 && Pow2(64) == TWO64
  {
    hide Pow2;
    Pow2Of16();
    PowAdd2(16, 16);
    PowAdd2(32, 32);
    Pow2Step(63);
  }

  lemma Pow2Of16()
    ensures Pow2(16) == 0x1_0000
  {
    hide Pow2;
    Pow2Of8();
    PowAdd2(8, 8);
  }

  lemma Pow2Of8()
    ensures Pow2(8) == 0x100
  {
  }

  // A multiple of p below another one leaves room for p.
  lemma NextMultiple(f: nat, q: nat, p: nat)
    requires p > 0 && f * p < q * p
    ensures f * p + p <= q * p
  {
    if f >= q {
      MulLe(q, p, f, p);
      assert false;
    }
    MulLe(f + 1, p, q, p);
  }

  // A positive multiple of 2^k that fits 64 bits.
  lemma FewShifts(f: nat, k: nat)
    requires f > 0 && f * Pow2(k) < TWO64
    ensures k < 64
  {
    hide Pow2;
    Pow2Of64();
    if k >= 64 {
      PowMonotone2(64, k);
      MulLe(1, Pow2(64), f, Pow2(k));
      assert false;
    }
  }

  lemma UpperStillFits(f: nat, k: nat)
    requires f > 0 && k >= 1 && f * Pow2(k) < TWO64
    ensures f * Pow2(k) + Pow2(k - 1) < TWO64
  {
    hide Pow2;
    FewShifts(f, k);
    Pow2Of64();
    Pow2Step(k - 1);
    PowAdd2(64 - k, k);
    NextMultiple(f, Pow2(64 - k), Pow2(k));
  }
}
