/** Powers of two and ten, over the naturals and over the reals. */
module Powers {
  function Pow(b: nat, k: nat): (p: nat)
    ensures b > 0 ==> p > 0
  {
    if k == 0 then 1 else b * Pow(b, k - 1)
  }

  lemma {:induction false} PowAdd(b: nat, j: nat, k: nat)
    ensures Pow(b, j + k) == Pow(b, j) * Pow(b, k)
  {
    if j > 0 {
      PowAdd(b, j - 1, k);
      PowStep(b, j - 1);
      PowStep(b, j - 1 + k);
      hide Pow;
      MulAssoc(b, Pow(b, j - 1), Pow(b, k));
    } else {
      assert Pow(b, 0) == 1;
    }
  }

  lemma PowStep(b: nat, k: nat)
    ensures Pow(b, k + 1) == b * Pow(b, k)
  {
  }

  lemma MulAssoc(a: nat, b: nat, c: nat)
    ensures a * (b * c) == (a * b) * c
  {
  }

  lemma {:induction false} PowMonotone(b: nat, j: nat, k: nat)
    requires b > 0 && j <= k
    ensures Pow(b, j) <= Pow(b, k)
  {
    PowAdd(b, j, k - j);
    assert Pow(b, j) * 1 <= Pow(b, j) * Pow(b, k - j);
  }

  lemma MulLe(x: nat, y: nat, a: nat, b: nat)
    requires x <= a && y <= b
    ensures x * y <= a * b
  {
    assert x * y <= x * b by { assert x * (b - y) >= 0; }
    assert x * b <= a * b by { assert (a - x) * b >= 0; }
  }

  function Pow2(k: nat): (p: nat) ensures p > 0 { Pow(2, k) }
  function Pow10(k: nat): (p: nat) ensures p > 0 { Pow(10, k) }

  lemma PowAdd2(j: nat, k: nat)
    ensures Pow2(j + k) == Pow2(j) * Pow2(k)
  {
    PowAdd(2, j, k);
  }

  lemma Pow2Step(k: nat)
    ensures Pow2(k + 1) == 2 * Pow2(k)
  {
  }

  lemma PowMonotone2(j: nat, k: nat)
    requires j <= k
    ensures Pow2(j) <= Pow2(k)
  {
    PowMonotone(2, j, k);
  }

  // b^k for any integer k.
  function PowR(b: nat, k: int): (p: real)
    requires b > 0
    ensures p > 0.0
  {
    if k >= 0 then Pow(b, k) as real else 1.0 / (Pow(b, -k) as real)
  }

  lemma PowRStep(b: nat, k: int)
    requires b > 0
    ensures PowR(b, k + 1) == b as real * PowR(b, k)
  {
    if k >= 0 {
      PowRUp(b, k);
    } else {
      PowRDown(b, -k - 1);
    }
  }

  lemma ToReal(a: int, b: int)
    ensures (a * b) as real == a as real * b as real
  {
  }

  lemma PowROfNat(b: nat, k: nat)
    requires b > 0
    ensures PowR(b, k) == Pow(b, k) as real
  {
  }

  lemma PowRUp(b: nat, k: nat)
    requires b > 0
    ensures PowR(b, k + 1) == b as real * PowR(b, k)
  {
    hide PowR, Pow;
    PowROfNat(b, k);
    PowROfNat(b, k + 1);
    PowStep(b, k);
    ToReal(b, Pow(b, k));
  }

  lemma PowROfNegative(b: nat, k: nat)
    requires b > 0
    ensures PowR(b, -(k as int)) == 1.0 / (Pow(b, k) as real)
  {
    hide Pow;
    if k == 0 {
      assert Pow(b, 0) == 1 by {
        PowZero(b);
      }
    }
  }

  lemma PowZero(b: nat)
    ensures Pow(b, 0) == 1
  {
  }

  lemma PowRDown(b: nat, k: nat)
    requires b > 0
    ensures PowR(b, -(k as int)) == b as real * PowR(b, -(k as int) - 1)
  {
    hide PowR, Pow;
    PowROfNegative(b, k);
    PowROfNegative(b, k + 1);
    PowStep(b, k);
    ToReal(b, Pow(b, k));
    Cancel(b as real, Pow(b, k) as real);
  }

  lemma Cancel(b: real, p: real)
    requires b > 0.0 && p > 0.0
    ensures b * (1.0 / (b * p)) == 1.0 / p
  {
    var x := 1.0 / (b * p);
    assert x * (b * p) == 1.0;
    assert (b * x) * p == 1.0;
  }

  lemma AssocR(a: real, b: real, c: real)
    ensures a * (b * c) == (a * b) * c
  {
  }

  lemma PowRZero(b: nat)
    requires b > 0
    ensures PowR(b, 0) == 1.0
  {
  }

  lemma {:induction false} PowRAdd(b: nat, j: int, k: int)
    requires b > 0
    ensures PowR(b, j + k) == PowR(b, j) * PowR(b, k)
    decreases if j < 0 then -j else j
  {
    hide PowR;
    PowRZero(b);
    if j > 0 {
      PowRAdd(b, j - 1, k);
      PowRStep(b, j - 1);
      PowRStep(b, j - 1 + k);
      AssocR(b as real, PowR(b, j - 1), PowR(b, k));
    } else if j < 0 {
      PowRAdd(b, j + 1, k);
      PowRStep(b, j);
      PowRStep(b, j + k);
      AssocR(b as real, PowR(b, j), PowR(b, k));
      SameFactor(b as real, PowR(b, j + k), PowR(b, j) * PowR(b, k));
    }
  }

  lemma SameFactor(b: real, x: real, y: real)
    requires b > 0.0 && b * x == b * y
    ensures x == y
  {
    assert b * (x - y) == 0.0;
  }
}
