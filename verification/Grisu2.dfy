/** Grisu2 of dtoa_milo.h: the digits and the exponent it returns denote a number strictly inside the
    rounding interval of the double, hence closer to it than to any other double. */
module Grisu {
  import opened Powers
  import opened DiyFloat
  import opened GrisuDigits

  // What the table lookup is taken to promise: c is 10^-K up to half a unit in the last place.
  ghost predicate CachedPower(c: DiyFp, K: int) {
    && TWO63 <= c.f < TWO64
    && -PowR(2, c.e) <= 2.0 * (c.Value() - PowR(10, -K)) <= PowR(2, c.e)
  }

  // The value of the double with sign 0 and these bits; past the largest finite one it is 2^1024.
  ghost function Value(bits: nat): real { FromBits(bits).Value() }

  ghost function Abs(x: real): real { if x < 0.0 then -x else x }

  // d * 10^k lies strictly between the points halfway to the two neighbours.
  ghost predicate InRoundingInterval(bits: nat, d: int, k: int)
    requires bits > 0
  {
    Value(bits - 1) + Value(bits) < 2.0 * (d as real * PowR(10, k)) < Value(bits) + Value(bits + 1)
  }

  // ---- exponents and values ----

  lemma Rescale(x: DiyFp, e: int)
    requires e <= x.e
    ensures Aligned(x, e).Value() == x.Value()
  {
    PowRAdd(2, x.e - e, e);
    Product(x.f, Pow2(x.e - e), PowR(2, e));
  }

  lemma Product(a: nat, b: nat, r: real)
    ensures (a * b) as real * r == a as real * (b as real * r)
  {
    assert (a * b) as real == a as real * b as real;
    AssocR(a as real, b as real, r);
  }

  lemma HalfUnit(e: int)
    ensures PowR(2, e) == 2.0 * PowR(2, e - 1) == 4.0 * PowR(2, e - 2)
  {
    PowRStep(2, e - 1);
    PowRStep(2, e - 2);
  }

  lemma FromBitsInRange(bits: nat)
    requires 0 < bits < INFINITY
    ensures 0 < FromBits(bits).f < TWO53
  {
  }

  // One step up in the bits is one unit in the last place.
  lemma Step(bits: nat)
    requires bits < INFINITY
    ensures Value(bits + 1) == Value(bits) + PowR(2, FromBits(bits).e)
  {
    hide PowR, FromBits;
    var v, u := FromBits(bits), FromBits(bits + 1);
    var p := PowR(2, v.e);
    if u.e == v.e {
      NextInBinade(bits);
      SumTimes(v.f as real, 1.0, p);
    } else {
      NextBinade(bits);
      HalfUnit(u.e);
      SumTimes(v.f as real, 1.0, p);
      AssocR(HIDDEN as real, 2.0, p);
    }
  }

  lemma SumTimes(a: real, b: real, u: real)
    ensures (a + b) * u == a * u + b * u
  {
  }

  lemma NextInBinade(bits: nat)
    requires bits < INFINITY && FromBits(bits + 1).e == FromBits(bits).e
    ensures FromBits(bits + 1).f == FromBits(bits).f + 1
  {
  }

  lemma NextBinade(bits: nat)
    requires bits < INFINITY && FromBits(bits + 1).e != FromBits(bits).e
    ensures FromBits(bits).f == TWO53 - 1
    ensures FromBits(bits + 1) == DiyFp(HIDDEN, FromBits(bits).e + 1)
  {
  }

  // The upper boundary is the upper midpoint; the lower one is the lower midpoint, or above it at 2^-1022.
  lemma BoundariesAreMidpoints(bits: nat)
    requires 0 < bits < INFINITY
    ensures var v := FromBits(bits);
            && 2.0 * UpperBoundary(v).Value() == Value(bits) + Value(bits + 1)
            && 2.0 * LowerBoundary(v).Value() >= Value(bits - 1) + Value(bits)
            && (bits != HIDDEN ==> 2.0 * LowerBoundary(v).Value() == Value(bits - 1) + Value(bits))
  {
    hide PowR, FromBits;
    var v := FromBits(bits);
    PreviousExponent(bits);
    FromBitsInRange(bits);
    Step(bits);
    Step(bits - 1);
    HalfUnit(v.e);
    Quarters(v.f, PowR(2, v.e), PowR(2, v.e - 1), PowR(2, v.e - 2));
  }

  // The value f * p with the halves and quarters of the unit p around it.
  lemma Quarters(f: nat, p: real, h: real, u: real)
    requires p == 2.0 * h == 4.0 * u
    ensures 2.0 * ((2 * f + 1) as real * h) == 2.0 * (f as real * p) + p
    ensures 2.0 * ((2 * f - 1) as real * h) == 2.0 * (f as real * p) - p
    ensures 2.0 * ((4 * f - 1) as real * u) == 2.0 * (f as real * p) - h
  {
    var x := f as real;
    assert x * p == 2.0 * (x * h) == 4.0 * (x * u);
    assert (2.0 * x + 1.0) * h == 2.0 * (x * h) + h;
    assert (2.0 * x - 1.0) * h == 2.0 * (x * h) - h;
    assert (4.0 * x - 1.0) * u == 4.0 * (x * u) - u;
  }

  lemma PreviousExponent(bits: nat)
    requires 0 < bits < INFINITY
    ensures var v, u := FromBits(bits), FromBits(bits - 1);
            if v.f == HIDDEN && bits != HIDDEN then u.e == v.e - 1 else u.e == v.e
  {
  }

  lemma {:induction false} Monotone(a: nat, b: nat)
    requires a < b <= INFINITY
    ensures Value(a) < Value(b)
    decreases b
  {
    hide PowR;
    Step(b - 1);
    if a < b - 1 {
      Monotone(a, b - 1);
    }
  }

  /** A number inside the rounding interval is nearer to this double than to every other one. */
  lemma IntervalIsNearest(bits: nat, x: real, other: nat)
    requires 0 < bits < INFINITY && Value(bits - 1) + Value(bits) < 2.0 * x < Value(bits) + Value(bits + 1)
    requires other <= INFINITY && other != bits
    ensures Abs(x - Value(bits)) < Abs(x - Value(other))
  {
    hide Value;
    Monotone(bits - 1, bits);
    Monotone(bits, bits + 1);
    if other < bits - 1 {
      Monotone(other, bits - 1);
    } else if other > bits + 1 {
      Monotone(bits + 1, other);
    }
  }

  // ---- the three products ----

  // The scaled bounds: on one exponent, the distance to the value at least 2^10 above and 2^9 below.
  lemma BoundsApart(v: DiyFp)
    requires 0 < v.f < TWO53
    ensures LowerBoundary(v).e >= Normalized(UpperBoundary(v)).e
    ensures var (wm, wp) := Boundaries(v); var w := Normalized(v);
            && wm.e == w.e == wp.e && 0 < wm.f
            && w.f + 1024 <= wp.f < TWO64 && wm.f + 512 <= w.f && TWO63 <= w.f
  {
    hide Pow, Pow2, Normalized;
    NormalizedExponent(v);
    NormalizedScales(v);
    NormalizedScales(UpperBoundary(v));
    var k := v.e - Normalized(v).e;
    NinePowers(k - 2);
    Scaled(v.f, Pow2(k - 2));
  }

  lemma NinePowers(j: nat)
    requires j >= 9
    ensures Pow2(j + 1) == 2 * Pow2(j) && Pow2(j + 2) == 4 * Pow2(j) && Pow2(j) >= 512
  {
    PowMonotone2(9, j);
    assert Pow2(9) == 512;
    PowStep(2, j);
    PowStep(2, j + 1);
  }

  lemma Scaled(f: nat, q: nat)
    requires f > 0 && q > 0
    ensures (2 * f + 1) * (2 * q) == f * (4 * q) + 2 * q
    ensures (2 * f - 1) * (2 * q) == f * (4 * q) - 2 * q > 0
    ensures (4 * f - 1) * q == f * (4 * q) - q > 0
  {
    MulLe(1, q, f, q);
    assert f * (4 * q) == 4 * (f * q);
    assert (2 * f) * (2 * q) == 4 * (f * q);
    assert (4 * f) * q == 4 * (f * q);
  }

  /** NormalizedBoundaries: the shifts lose no bit. */
  method NormalizedBoundaries(v: DiyFp) returns (minus: DiyFp, plus: DiyFp)
    requires 0 < v.f < TWO53
    ensures (minus, plus) == Boundaries(v) && minus.Fits() && plus.Fits()
  {
    BoundsApart(v);
    var pl := NormalizeBoundary(DiyFp(2 * v.f + 1, v.e - 1));
    var mi := if v.f == HIDDEN then DiyFp(4 * v.f - 1, v.e - 2) else DiyFp(2 * v.f - 1, v.e - 1);
    minus := DiyFp(mi.f * Pow2(mi.e - pl.e), pl.e);
    plus := pl;
  }

  // The requirements of DigitGen: the rounded products keep their order, with room for the tightening.
  lemma ProductsApart(wm: DiyFp, w: DiyFp, wp: DiyFp, c: DiyFp)
    requires wm.f + 512 <= w.f && w.f + 1024 <= wp.f < TWO64 && TWO63 <= w.f && TWO63 <= c.f < TWO64
    ensures Mul(w, c).f < Mul(wp, c).f && Mul(wm, c).f + 2 < Mul(wp, c).f < TWO64
    ensures 0x1000_0000_0000_0000 < Mul(wp, c).f
  {
    MulError(wm, c);
    MulError(w, c);
    MulError(wp, c);
    hide *;
    Apart(wm.f, 512, w.f, c.f);
    Apart(w.f, 1024, wp.f, c.f);
    MulLe(TWO63, TWO63, wp.f, c.f);
  }

  lemma Apart(a: nat, gap: nat, b: nat, c: nat)
    requires a + gap <= b
    ensures a * c + gap * c <= b * c
  {
    MulLe(a + gap, c, b, c);
  }

  // The rounded product is less than one unit away from the exact multiple of the exact power.
  lemma ProductError(x: DiyFp, c: DiyFp, K: int, e: int)
    requires 0 < x.f < TWO64 && CachedPower(c, K) && e == x.e + c.e + 64
    ensures (Mul(x, c).f - 1) as real * PowR(2, e) < x.Value() * PowR(10, -K) < (Mul(x, c).f + 1) as real * PowR(2, e)
  {
    hide PowR, Mul;
    MulError(x, c);
    ProductExponent(x.e, c.e);
    RealError(x.f, c.f, Mul(x, c).f, PowR(2, x.e), PowR(2, c.e), PowR(10, -K), PowR(2, e));
  }

  lemma ProductExponent(d: int, e: int)
    ensures PowR(2, d + e + 64) == PowR(2, d) * PowR(2, e) * TWO64 as real
  {
    hide PowR;
    PowRAdd(2, d, e);
    PowRAdd(2, d + e, 64);
    assert PowR(2, 64) == TWO64 as real by { PowRWhole(64); Pow2Of64(); }
  }

  lemma PowRWhole(k: nat)
    ensures PowR(2, k) == Pow2(k) as real
  {
    hide PowR, Pow;
    PowROfNat(2, k);
  }

  lemma RealError(x: nat, c: nat, h: nat, g: real, t: real, r: real, u: real)
    requires 2 * h * TWO64 - TWO64 <= 2 * (x * c) < 2 * h * TWO64 + TWO64 && 0 < x < TWO64 && g > 0.0 && t > 0.0
    requires -t <= 2.0 * (c as real * t - r) <= t && u == g * t * TWO64 as real
    ensures (h - 1) as real * u < x as real * g * r < (h + 1) as real * u
  {
    var b, y, hb := TWO64 as real, x as real * c as real, h as real * TWO64 as real;
    ToReal(x, c);
    UnitsAsReals(x * c, h, y, hb, b);
    ScaledPower(x as real, c as real, t, r);
    ScaledError(x as real, y, h as real, hb, g, t, r, u, b);
  }

  lemma UnitsAsReals(n: nat, h: nat, y: real, hb: real, b: real)
    requires 2 * h * TWO64 - TWO64 <= 2 * n < 2 * h * TWO64 + TWO64
    requires y == n as real && b == TWO64 as real && hb == h as real * b
    ensures 2.0 * hb - b <= 2.0 * y < 2.0 * hb + b
  {
  }

  // Within half a unit of the product and half a unit of the power: less than one unit in all.
  lemma ScaledError(x: real, y: real, h: real, hb: real, g: real, t: real, r: real, u: real, b: real)
    requires 2.0 * hb - b <= 2.0 * y < 2.0 * hb + b && 0.0 < x < b && g > 0.0 && t > 0.0
    requires -(x * t) <= 2.0 * (y * t - x * r) <= x * t
    requires hb == h * b && u == g * t * b
    ensures (h - 1.0) * u < x * g * r < (h + 1.0) * u
  {
    var xr := x * r;
    UnitError(hb, x, y, xr, t, b);
    Between(hb - b, xr, g, t);
    Below(hb + b, xr, g, t);
    Regroup(h, b, g, t);
    AssocR(g, x, r);
    assert g * x == x * g;
  }

  lemma Below(a: real, xr: real, g: real, t: real)
    requires g > 0.0 && xr < a * t
    ensures g * xr < g * (a * t)
  {
    assert g * (a * t - xr) > 0.0;
  }

  lemma Regroup(h: real, b: real, g: real, t: real)
    ensures (h - 1.0) * (g * t * b) == g * ((h * b - b) * t)
    ensures (h + 1.0) * (g * t * b) == g * ((h * b + b) * t)
  {
    Regrouped(h - 1.0, b, g, t);
    Regrouped(h + 1.0, b, g, t);
    SumTimes(h, 1.0, b);
    SumTimes(h, -1.0, b);
  }

  lemma Regrouped(a: real, b: real, g: real, t: real)
    ensures a * (g * t * b) == g * ((a * b) * t)
  {
    AssocR(a, g * t, b);
    AssocR(a, g, t);
    AssocR(g, a, t);
    AssocR(g, a * t, b);
    Rotate(a, t, b);
  }


  // x * r is x * c in units of t, up to half of x.
  lemma ScaledPower(x: real, c: real, t: real, r: real)
    requires x > 0.0 && -t <= 2.0 * (c * t - r) <= t
    ensures -(x * t) <= 2.0 * (x * c * t - x * r) <= x * t
  {
    var ct := c * t;
    AssocR(x, c, t);
    assert x * (2.0 * (ct - r) + t) >= 0.0;
    assert x * (t - 2.0 * (ct - r)) >= 0.0;
  }

  lemma UnitError(hb: real, x: real, y: real, xr: real, t: real, b: real)
    requires 2.0 * hb - b <= 2.0 * y < 2.0 * hb + b && x < b && t > 0.0
    requires -(x * t) <= 2.0 * (y * t - xr) <= x * t
    ensures (hb - b) * t < xr < (hb + b) * t
  {
    var yt, ht, bt, xt := y * t, hb * t, b * t, x * t;
    assert (2.0 * y - 2.0 * hb + b) * t == 2.0 * yt - 2.0 * ht + bt >= 0.0;
    assert (2.0 * hb + b - 2.0 * y) * t == 2.0 * ht + bt - 2.0 * yt > 0.0;
    assert (b - x) * t == bt - xt > 0.0;
    assert (hb - b) * t == ht - bt && (hb + b) * t == ht + bt;
  }

  lemma Between(a: real, xr: real, g: real, t: real)
    requires g > 0.0 && a * t < xr
    ensures g * (a * t) < g * xr
  {
    assert g * (xr - a * t) > 0.0;
  }

  // ---- from the digit range to the value ----

  // The digits, scaled back by the exponents of DigitGen and of the power.
  lemma RangeIsValue(lo: nat, hi: nat, n: nat, d: int, k: int)
    requires lo <= hi && InRange(hi, hi - lo, n, d, k)
    ensures lo as real * PowR(2, -(n as int)) <= d as real * PowR(10, k) <= hi as real * PowR(2, -(n as int))
  {
    hide PowR, Pow2, Pow10;
    Inverse(2, n);
    if k >= 0 {
      PowR10(k);
      WholeRange(lo, d, hi, Pow2(n), Pow10(k), PowR(2, -(n as int)), PowR(10, k));
    } else {
      Inverse(10, -k);
      FractionRange(lo, d, hi, Pow2(n), Pow10(-k), PowR(2, -(n as int)), PowR(10, k));
    }
  }

  lemma WholeRange(lo: nat, d: int, hi: nat, one: nat, t: nat, u: real, p: real)
    requires lo <= d * t * one <= hi && one as real * u == 1.0 && u > 0.0 && p == t as real
    ensures lo as real * u <= d as real * p <= hi as real * u
  {
    Reals(lo, d * t, hi, one, 1, u);
    ToReal(d, t);
  }

  lemma FractionRange(lo: nat, d: int, hi: nat, one: nat, t: nat, u: real, p: real)
    requires lo * t <= d * one <= hi * t && one as real * u == 1.0 && u > 0.0 && t as real * p == 1.0 && p > 0.0
    ensures lo as real * u <= d as real * p <= hi as real * u
  {
    Reals(lo, d, hi, one, t, u);
    Divide(lo as real * u, d as real, hi as real * u, t as real, p);
  }

  lemma PowR10(k: nat)
    ensures PowR(10, k) == Pow10(k) as real
  {
    hide PowR, Pow;
    PowROfNat(10, k);
  }

  lemma Inverse(b: nat, n: nat)
    requires b > 0
    ensures Pow(b, n) as real * PowR(b, -(n as int)) == 1.0
    ensures b == 2 ==> Pow2(n) as real * PowR(b, -(n as int)) == 1.0
    ensures b == 10 ==> Pow10(n) as real * PowR(b, -(n as int)) == 1.0
  {
    hide PowR, Pow;
    PowRAdd(b, n, -(n as int));
    PowRZero(b);
    PowROfNat(b, n);
  }

  // lo*t <= x*one <= hi*t, divided by one.
  lemma Reals(lo: nat, x: int, hi: nat, one: nat, t: nat, u: real)
    requires lo * t <= x * one <= hi * t && one as real * u == 1.0 && u > 0.0
    ensures lo as real * u * t as real <= x as real <= hi as real * u * t as real
  {
    ToReal(lo, t);
    ToReal(x, one);
    ToReal(hi, t);
    DivideBy(lo as real, x as real, hi as real, one as real, t as real, u);
  }

  lemma DivideBy(lo: real, x: real, hi: real, one: real, t: real, u: real)
    requires lo * t <= x * one <= hi * t && one * u == 1.0 && u > 0.0
    ensures lo * u * t <= x <= hi * u * t
  {
    var a, y, b := lo * t, x * one, hi * t;
    assert (y - a) * u >= 0.0 && (b - y) * u >= 0.0;
    AssocR(x, one, u);
    Rotate(lo, t, u);
    Rotate(hi, t, u);
  }

  lemma Rotate(a: real, t: real, u: real)
    ensures (a * t) * u == a * u * t
  {
  }

  lemma Divide(lo: real, x: real, hi: real, t: real, s: real)
    requires lo * t <= x <= hi * t && t * s == 1.0 && s > 0.0
    ensures lo <= x * s <= hi
  {
    var a, b := lo * t, hi * t;
    assert (x - a) * s >= 0.0 && (b - x) * s >= 0.0;
    AssocR(lo, t, s);
    AssocR(hi, t, s);
  }

  // Between the tightened products means strictly between the exact bounds.
  lemma Inside(lo: real, x: real, hi: real, k0: int, k: int, d: int)
    requires lo * PowR(10, -k0) < x < hi * PowR(10, -k0) && x == d as real * PowR(10, k - k0)
    ensures lo < d as real * PowR(10, k) < hi
  {
    hide PowR;
    var p, q := PowR(10, -k0), PowR(10, k0);
    assert p * q == 1.0 by { PowRAdd(10, -k0, k0); PowRZero(10); }
    PowRAdd(10, k - k0, k0);
    AssocR(d as real, PowR(10, k - k0), q);
    StrictlyDivided(lo, x, hi, p, q);
  }

  lemma StrictlyDivided(lo: real, x: real, hi: real, p: real, q: real)
    requires lo * p < x < hi * p && p * q == 1.0 && q > 0.0
    ensures lo < x * q < hi
  {
    var a, b := lo * p, hi * p;
    assert (x - a) * q > 0.0 && (b - x) * q > 0.0;
    AssocR(lo, p, q);
    AssocR(hi, p, q);
  }

  /** Grisu2, for the positive finite double with these bits, with the looked-up power as a parameter. */
  method Grisu2(bits: nat, c: DiyFp, K0: int, buffer: array<char>) returns (length: nat, K: int)
    requires 0 < bits < INFINITY && buffer.Length >= 29
    requires CachedPower(c, K0) && -60 <= Boundaries(FromBits(bits)).1.e + c.e + 64 <= -32
    modifies buffer
    ensures 0 < length <= 29 && AllDigits(buffer[..length]) && buffer[0] != '0'
    ensures InRoundingInterval(bits, Num(buffer[..length]), K)
    ensures -19 <= K - K0 < 10
  {
    var v := FromBits(bits);
    FromBitsInRange(bits);
    var wm, wp := NormalizedBoundaries(v);
    var w := Normalize(v);
    BoundsApart(v);
    var W := Mul(w, c);
    var Wp, Wm := Mul(wp, c), Mul(wm, c);
    ProductsApart(wm, w, wp, c);
    Wm := DiyFp(Wm.f + 1, Wm.e);
    Wp := DiyFp(Wp.f - 1, Wp.e);
    assert Pow2(-Wp.e) <= Wp.f by { PowMonotone2(-Wp.e, 60); Pow2Of60(); }
    length, K := DigitGen(W, Wp, Wp.f - Wm.f, buffer, K0);
    DigitsInside(bits, c, K0, Num(buffer[..length]), K);
  }

  // Scaling to one exponent does not change the boundaries.
  lemma BoundariesKeepValue(v: DiyFp)
    requires 0 < v.f < TWO53
    ensures Boundaries(v).0.Value() == LowerBoundary(v).Value() && Boundaries(v).1.Value() == UpperBoundary(v).Value()
  {
    hide Normalized, LowerBoundary, DiyFp.Value, Aligned;
    BoundsApart(v);
    UpperAligned(UpperBoundary(v));
    Rescale(LowerBoundary(v), Boundaries(v).1.e);
    Rescale(UpperBoundary(v), Boundaries(v).1.e);
  }

  lemma UpperAligned(u: DiyFp)
    requires 0 < u.f < TWO64
    ensures Normalized(u).e <= u.e && Aligned(u, Normalized(u).e) == Normalized(u)
  {
    hide Normalized, Pow2;
    NormalizedScales(u);
  }

  lemma DigitsInside(bits: nat, c: DiyFp, K0: int, d: int, K: int)
    requires 0 < bits < INFINITY && CachedPower(c, K0)
    requires var (wm, wp) := Boundaries(FromBits(bits)); var lo, hi := Mul(wm, c).f + 1, Mul(wp, c).f - 1;
             wp.e + c.e <= -64 && lo <= hi && InRange(hi, hi - lo, -(wp.e + c.e + 64), d, K - K0)
    ensures InRoundingInterval(bits, d, K)
  {
    hide PowR, Normalized, FromBits, CachedPower, InRange, Mul, Value, DiyFp.Value, Boundaries, LowerBoundary, UpperBoundary;
    var v := FromBits(bits);
    FromBitsInRange(bits);
    var (wm, wp) := Boundaries(v);
    BoundsApart(v);
    BoundariesKeepValue(v);
    ProductError(wm, c, K0, wp.e + c.e + 64);
    ProductError(wp, c, K0, wp.e + c.e + 64);
    RangeIsValue(Mul(wm, c).f + 1, Mul(wp, c).f - 1, -(wp.e + c.e + 64), d, K - K0);
    Inside(wm.Value(), d as real * PowR(10, K - K0), wp.Value(), K0, K, d);
    BoundariesAreMidpoints(bits);
  }
}
