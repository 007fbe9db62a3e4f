/** GrisuRound and DigitGen of dtoa_milo.h: digits of the upper bound until the rest fits into delta,
    then the last digit lowered towards the exact value. */
module GrisuDigits {
  import opened Powers
  import opened DiyFloat

  predicate IsDigit(c: char) { '0' <= c <= '9' }

  function DigitVal(c: char): int { c as int - '0' as int }

  function DigitChar(d: nat): (c: char)
    requires d < 10
    ensures IsDigit(c) && DigitVal(c) == d
  {
    ('0' as int + d) as char
  }

  predicate AllDigits(s: seq<char>) {
    forall i :: 0 <= i < |s| ==> IsDigit(s[i])
  }

  // The number a digit string denotes.
  function Num(s: seq<char>): int {
    if s == [] then 0 else 10 * Num(s[..|s| - 1]) + DigitVal(s[|s| - 1])
  }

  lemma NumAppend(s: seq<char>, c: char)
    ensures Num(s + [c]) == 10 * Num(s) + DigitVal(c)
  {
    assert (s + [c])[..|s|] == s;
  }

  function Dist(a: int, b: int): nat { if a < b then b - a else a - b }

  // Moving on only when that is strictly closer ends at the closest reachable point.
  lemma Closest(rest: nat, n: nat, m: nat, ten: nat, delta: nat, wpw: nat)
    requires ten > 0 && rest + m * ten <= delta
    requires n > 0 ==> Dist(rest + n * ten, wpw) <= Dist(rest + (n - 1) * ten, wpw) && rest + (n - 1) * ten < wpw
    requires rest + n * ten >= wpw || rest + n * ten + ten > delta || Dist(rest + n * ten, wpw) <= Dist(rest + n * ten + ten, wpw)
    ensures Dist(rest + n * ten, wpw) <= Dist(rest + m * ten, wpw)
  {
    var a, b := rest + n * ten, rest + m * ten;
    if m < n {
      MulLe(m, ten, n - 1, ten);
      assert (n - 1) * ten == n * ten - ten;
    } else if m > n {
      MulLe(n + 1, ten, m, ten);
      assert (n + 1) * ten == n * ten + ten;
    }
  }

  /** GrisuRound. rest is the distance of the number in the buffer from the upper bound, in units of
      which tenKappa make one last digit. The last digit is lowered n times: never below '0', never
      past delta, and to the value closest to wpw. No step overflows. */
  method GrisuRound(buffer: array<char>, len: nat, delta: nat, rest0: nat, tenKappa: nat, wpw: nat) returns (ghost n: nat)
    requires 0 < len <= buffer.Length && IsDigit(buffer[len - 1])
    requires rest0 <= delta < TWO64 && 0 < tenKappa < TWO64 && wpw < TWO64
    requires delta <= rest0 + DigitVal(buffer[len - 1]) * tenKappa
    modifies buffer
    ensures n <= old(DigitVal(buffer[len - 1])) && rest0 + n * tenKappa <= delta
    ensures buffer[..] == old(buffer[..])[len - 1 := DigitChar(old(DigitVal(buffer[len - 1])) - n)]
    ensures forall m: nat :: rest0 + m * tenKappa <= delta ==> Dist(rest0 + n * tenKappa, wpw) <= Dist(rest0 + m * tenKappa, wpw)
  {
    var rest := rest0;
    n := 0;
    ghost var d := DigitVal(buffer[len - 1]);
    while rest < wpw && delta - rest >= tenKappa && (rest + tenKappa < wpw || wpw - rest > rest + tenKappa - wpw)
      invariant n <= d && rest == rest0 + n * tenKappa <= delta
      invariant buffer[..] == old(buffer[..])[len - 1 := DigitChar(d - n)]
      invariant n > 0 ==> Dist(rest, wpw) <= Dist(rest - tenKappa, wpw) && rest - tenKappa < wpw
      decreases delta - rest
    {
      assert rest + tenKappa < TWO64;
      assert (n + 1) * tenKappa == n * tenKappa + tenKappa;
      buffer[len - 1] := (buffer[len - 1] as int - 1) as char;
      rest := rest + tenKappa;
      n := n + 1;
      assert (n - 1) * tenKappa == n * tenKappa - tenKappa;
    }
    forall m: nat | rest0 + m * tenKappa <= delta ensures Dist(rest0 + n * tenKappa, wpw) <= Dist(rest0 + m * tenKappa, wpw) {
      assert n > 0 ==> (n - 1) * tenKappa == n * tenKappa - tenKappa;
      Closest(rest0, n, m, tenKappa, delta, wpw);
    }
  }

  function CountDecimalDigit32(n: nat): (c: nat)
    ensures 1 <= c <= 10
  {
    if n < 10 then 1 else if n < 100 then 2 else if n < 1000 then 3 else if n < 10000 then 4
    else if n < 100000 then 5 else if n < 1000000 then 6 else if n < 10000000 then 7
    else if n < 100000000 then 8 else if n < 1000000000 then 9 else 10
  }

  const KPOW10: seq<nat> := [1, 10, 100, 1000, 10000, 100000, 1000000, 10000000, 100000000, 1000000000]

  lemma TablePowers(i: nat)
    requires i < 10
    ensures KPOW10[i] == Pow10(i)
  {
    assert Pow10(0) == 1 && Pow10(1) == 10 && Pow10(2) == 100 && Pow10(3) == 1000 && Pow10(4) == 10000;
    assert Pow10(5) == 10 * Pow10(4) && Pow10(6) == 10 * Pow10(5) && Pow10(7) == 10 * Pow10(6);
    assert Pow10(8) == 10 * Pow10(7) && Pow10(9) == 10 * Pow10(8);
  }

  lemma DigitCount(n: nat)
    requires n < TWO32
    ensures var c := CountDecimalDigit32(n); n < Pow10(c) && (n > 0 ==> Pow10(c - 1) <= n)
  {
    var c := CountDecimalDigit32(n);
    TablePowers(c - 1);
    assert Pow10(c) == 10 * Pow10(c - 1);
  }

  // The digits d, scaled by 10^k, lie within delta below mp, in units of 2^-n.
  predicate InRange(mp: nat, delta: nat, n: nat, d: int, k: int)
    requires delta <= mp
  {
    if k >= 0 then mp - delta <= d * Pow10(k) * Pow2(n) <= mp
    else (mp - delta) * Pow10(-k) <= d * Pow2(n) <= mp * Pow10(-k)
  }

  // The state of the first loop: digits s of the integer part are out, p1 of it is left, kappa digits to come.
  function Whole(mp: nat, n: nat): nat { mp / Pow2(n) }
  function Part(mp: nat, n: nat): nat { mp % Pow2(n) }
  function Digit(p: nat, k: nat): nat { p / Pow10(k) }
  function Rest(p: nat, k: nat): nat { p % Pow10(k) }

  ghost predicate IntegerLoop(mp: nat, n: nat, delta: nat, s: seq<char>, p1: nat, kappa: nat) {
    && AllDigits(s) && kappa <= 10 && |s| + kappa <= 10
    && Num(s) * Pow10(kappa) + p1 == Whole(mp, n) && p1 < Pow10(kappa)
    && delta < p1 * Pow2(n) + Part(mp, n)
    && (if |s| > 0 then s[0] != '0' else kappa > 0 && Pow10(kappa - 1) <= p1)
  }

  // After one turn: either the rest fits into delta, or the loop goes on.
  lemma IntegerTurn(mp: nat, n: nat, delta: nat, s: seq<char>, p1: nat, kappa: nat)
    requires IntegerLoop(mp, n, delta, s, p1, kappa) && kappa > 0
    ensures var d, r := Digit(p1, kappa - 1), Rest(p1, kappa - 1);
            && d < 10 && (|s| == 0 ==> d > 0)
            && var s' := s + [DigitChar(d)];
            && AllDigits(s') && |s'| + (kappa - 1) <= 10 && s'[0] != '0'
            && Num(s') * Pow10(kappa - 1) + r == Whole(mp, n) && r < Pow10(kappa - 1)
            && delta < d * (Pow10(kappa - 1) * Pow2(n)) + (r * Pow2(n) + Part(mp, n))
            && (r * Pow2(n) + Part(mp, n) > delta ==> IntegerLoop(mp, n, delta, s', r, kappa - 1))
  {
    TenTimes(kappa);
    hide Num, Pow10, Pow2, Whole, Part, Digit, Rest;
    TurnArithmetic(Num(s), kappa - 1, Pow2(n), p1, Whole(mp, n), Part(mp, n), delta);
    NumAppend(s, DigitChar(Digit(p1, kappa - 1)));
  }

  lemma TenTimes(k: nat)
    requires k > 0
    ensures Pow10(k) == 10 * Pow10(k - 1)
  {
  }

  lemma Headroom(k: nat, n: nat, mp: nat)
    requires Pow10(k) * Pow2(n) <= mp
    ensures k > 0 ==> Pow10(k - 1) * Pow2(n) <= mp
  {
    if k > 0 {
      MulLe(Pow10(k - 1), Pow2(n), Pow10(k), Pow2(n));
    }
  }

  lemma TurnArithmetic(num: int, k: nat, one: nat, p1: nat, whole: int, p2: nat, delta: nat)
    requires p1 < 10 * Pow10(k) && num * (10 * Pow10(k)) + p1 == whole && delta < p1 * one + p2
    ensures var d, r, t := Digit(p1, k), Rest(p1, k), Pow10(k);
            && d < 10 && (t <= p1 ==> d > 0) && r < t
            && (10 * num + d) * t + r == whole && delta < d * (t * one) + (r * one + p2)
  {
    var d, r, t := Digit(p1, k), Rest(p1, k), Pow10(k);
    assert p1 == d * t + r && r < t && (t <= p1 ==> d > 0) by { Divided(p1, t); }
    hide Digit, Rest, Pow10;
    if d >= 10 {
      MulLe(10, t, d, t);
    }
    TenFold(num, d, t);
    Reassociate(d, t, r, one);
  }

  lemma Divided(p: nat, t: nat)
    requires t > 0
    ensures p == p / t * t + p % t && p % t < t && (t <= p ==> p / t > 0)
  {
  }

  lemma TenFold(num: int, d: nat, t: nat)
    ensures (10 * num + d) * t == num * (10 * t) + d * t
  {
  }

  lemma Reassociate(d: nat, t: nat, r: nat, one: nat)
    ensures (d * t + r) * one == d * (t * one) + r * one
  {
  }

  // The state of the second loop after i fractional digits: p2 is the rest, both p2 and delta are scaled by 10^i.
  ghost predicate FractionLoop(mp: nat, n: nat, delta0: nat, s: seq<char>, p2: nat, delta: nat, i: nat) {
    && AllDigits(s) && 0 < |s| <= 10 + i && s[0] != '0'
    && Num(s) * Pow2(n) + p2 == mp * Pow10(i) && delta == delta0 * Pow10(i)
    && 0 < delta <= p2 < Pow2(n)
  }

  // Between the loops nothing has to be scaled.
  lemma FractionStart(mp: nat, n: nat, delta: nat, s: seq<char>)
    requires IntegerLoop(mp, n, delta, s, 0, 0) && delta > 0
    ensures FractionLoop(mp, n, delta, s, Part(mp, n), delta, 0)
  {
    assert Pow10(0) == 1;
    assert mp == mp / Pow2(n) * Pow2(n) + mp % Pow2(n);
  }

  // At most 18 fractional digits come out: delta, at least 10^i, stays below 2^n.
  lemma FractionBound(mp: nat, n: nat, delta0: nat, s: seq<char>, p2: nat, delta: nat, i: nat)
    requires FractionLoop(mp, n, delta0, s, p2, delta, i) && delta0 > 0 && n <= 60
    ensures i <= 18 && |s| <= 28 && 10 * p2 < TWO64 && 10 * delta < TWO64
  {
    PowMonotone2(n, 60);
    Pow2Of60();
    MulLe(1, Pow10(i), delta0, Pow10(i));
    if i >= 19 {
      PowMonotone(10, 19, i);
      Pow10Of19();
    }
  }

  lemma Pow2Of60()
    ensures Pow2(60) == 0x1000_0000_0000_0000
  {
    Pow2Of64();
    PowAdd2(60, 4);
    assert Pow2(4) == 16;
  }

  lemma Pow10Of19()
    ensures Pow10(19) == 10_000_000_000_000_000_000
  {
    TablePowers(9);
    PowAdd(10, 9, 9);
    assert Pow10(19) == 10 * Pow10(18);
  }

  lemma FractionTurn(mp: nat, n: nat, delta0: nat, s: seq<char>, p2: nat, delta: nat, i: nat)
    requires FractionLoop(mp, n, delta0, s, p2, delta, i)
    ensures var d, r := 10 * p2 / Pow2(n), 10 * p2 % Pow2(n);
            && d < 10
            && var s' := s + [DigitChar(d)];
            && AllDigits(s') && s'[0] != '0'
            && Num(s') * Pow2(n) + r == mp * Pow10(i + 1) && 10 * delta == delta0 * Pow10(i + 1)
            && 10 * delta <= d * Pow2(n) + r
            && (r >= 10 * delta ==> FractionLoop(mp, n, delta0, s', r, 10 * delta, i + 1))
  {
    var one := Pow2(n);
    FractionArithmetic(Num(s), one, p2, mp, Pow10(i), delta, delta0);
    assert Pow10(i + 1) == 10 * Pow10(i);
    NumAppend(s, DigitChar(10 * p2 / one));
  }

  lemma FractionArithmetic(num: int, one: nat, p2: nat, mp: nat, t: nat, delta: nat, delta0: nat)
    requires num * one + p2 == mp * t && p2 < one && delta == delta0 * t && delta <= p2
    ensures var d, r := 10 * p2 / one, 10 * p2 % one;
            && d < 10 && r < one && 10 * delta <= d * one + r
            && (10 * num + d) * one + r == mp * (10 * t) && 10 * delta == delta0 * (10 * t)
  {
    var d, r := 10 * p2 / one, 10 * p2 % one;
    if d >= 10 {
      MulLe(10, one, d, one);
    }
    assert 10 * p2 == d * one + r;
    assert (10 * num + d) * one == 10 * (num * one) + d * one;
    assert mp * (10 * t) == 10 * (mp * t);
    assert delta0 * (10 * t) == 10 * (delta0 * t);
  }

  // Lowering the last digit lowers the number.
  lemma NumLowered(s: seq<char>, m: nat)
    requires s != [] && IsDigit(s[|s| - 1]) && m <= DigitVal(s[|s| - 1])
    ensures var r := s[|s| - 1 := DigitChar(DigitVal(s[|s| - 1]) - m)]; Num(r) == Num(s) - m
  {
    var k := |s| - 1;
    var r := s[k := DigitChar(DigitVal(s[k]) - m)];
    assert r[..k] == s[..k];
  }

  lemma IntegerEnd(num: int, m: nat, t: nat, one: nat, r: nat, mp: nat, delta: nat)
    requires one > 0 && num * t + r == mp / one && r * one + mp % one + m * (t * one) <= delta <= mp
    ensures mp - delta <= (num - m) * t * one <= mp
  {
    var p2 := mp % one;
    assert (num * t + r) * one == num * t * one + r * one;
    assert mp == mp / one * one + p2;
    assert (num - m) * t * one == num * t * one - m * (t * one) by { Distribute(num, m, t, one); }
  }

  lemma Distribute(num: int, m: nat, t: nat, one: nat)
    ensures (num - m) * t * one == num * t * one - m * (t * one)
  {
    assert (num - m) * t == num * t - m * t;
    assert (num * t - m * t) * one == num * t * one - m * t * one;
    assert m * t * one == m * (t * one);
  }

  lemma FractionEnd(num: int, m: nat, one: nat, r: nat, scale: nat, mp: nat, delta0: nat)
    requires num * one + r == mp * scale && r + m * one <= delta0 * scale && delta0 <= mp
    ensures (mp - delta0) * scale <= (num - m) * one <= mp * scale
  {
    assert (num - m) * one == num * one - m * one;
    assert (mp - delta0) * scale == mp * scale - delta0 * scale;
  }

  // wp_w.f * kPow10[-kappa], wrapped to 64 bits; beyond the table any value.
  method Closeness(wpw: nat, i: nat) returns (c: nat)
    ensures c < TWO64
  {
    c := *;
    if i < 10 {
      c := wpw * KPOW10[i];
    }
    c := c % TWO64;
  }

  /** The second loop of DigitGen, from i = 0 fractional digits. */
  method FractionDigits(mp: nat, n: nat, delta0: nat, buffer: array<char>, len0: nat, wpw: nat) returns (len: nat, i: nat)
    requires 32 <= n <= 60 && 0 < delta0 <= mp && buffer.Length >= 29 && len0 <= buffer.Length && wpw < TWO64
    requires FractionLoop(mp, n, delta0, buffer[..len0], Part(mp, n), delta0, 0)
    modifies buffer
    ensures 0 < len <= 29 && AllDigits(buffer[..len]) && 0 < i <= 19 && InRange(mp, delta0, n, Num(buffer[..len]), -(i as int))
    ensures buffer[0] != '0'
  {
    var p2: nat, delta: nat := Part(mp, n), delta0;
    len, i := len0, 0;
    while true
      invariant len <= buffer.Length && FractionLoop(mp, n, delta0, buffer[..len], p2, delta, i)
      decreases Pow2(n) - delta
    {
      FractionBound(mp, n, delta0, buffer[..len], p2, delta, i);
      FractionTurn(mp, n, delta0, buffer[..len], p2, delta, i);
      p2 := p2 * 10;
      delta := delta * 10;
      assert p2 < TWO64 && delta < TWO64;
      var d := p2 / Pow2(n);
      ghost var s := buffer[..len];
      buffer[len] := DigitChar(d);
      len := len + 1;
      assert buffer[..len] == s + [DigitChar(d)];
      p2 := p2 % Pow2(n);
      i := i + 1;
      if p2 < delta {
        var closeness := Closeness(wpw, i);
        RoundFraction(mp, n, delta0, delta, buffer, len, p2, i, closeness);
        return;
      }
    }
  }

  method RoundFraction(mp: nat, n: nat, delta0: nat, delta: nat, buffer: array<char>, len: nat, p2: nat, i: nat, closeness: nat)
    requires 1 < len <= buffer.Length && n <= 60 && delta0 <= mp && closeness < TWO64 && i > 0
    requires AllDigits(buffer[..len]) && buffer[0] != '0'
    requires Num(buffer[..len]) * Pow2(n) + p2 == mp * Pow10(i) && delta == delta0 * Pow10(i) && delta < TWO64
    requires p2 < delta <= DigitVal(buffer[len - 1]) * Pow2(n) + p2
    modifies buffer
    ensures AllDigits(buffer[..len]) && buffer[0] != '0' && InRange(mp, delta0, n, Num(buffer[..len]), -(i as int))
  {
    PowMonotone2(n, 60);
    Pow2Of60();
    ghost var s := buffer[..len];
    var m := GrisuRound(buffer, len, delta, p2, Pow2(n), closeness);
    NumLowered(s, m);
    FractionEnd(Num(s), m, Pow2(n), p2, Pow10(i), mp, delta0);
    assert buffer[..len] == s[len - 1 := DigitChar(DigitVal(s[len - 1]) - m)];
  }

  // The first loop stops with the rest inside delta: lower the last digit.
  method RoundInteger(mp: nat, n: nat, delta: nat, buffer: array<char>, len: nat, r: nat, kappa: nat, wpw: nat)
    requires 0 < len <= buffer.Length && 0 < delta < mp < TWO64 && wpw < TWO64
    requires AllDigits(buffer[..len]) && buffer[0] != '0'
    requires Num(buffer[..len]) * Pow10(kappa) + r == Whole(mp, n) && Pow10(kappa) * Pow2(n) <= mp
    requires r * Pow2(n) + Part(mp, n) <= delta
    requires delta < DigitVal(buffer[len - 1]) * (Pow10(kappa) * Pow2(n)) + (r * Pow2(n) + Part(mp, n))
    modifies buffer
    ensures AllDigits(buffer[..len]) && buffer[0] != '0' && InRange(mp, delta, n, Num(buffer[..len]), kappa)
  {
    ghost var s := buffer[..len];
    var tmp, ten := r * Pow2(n) + Part(mp, n), Pow10(kappa) * Pow2(n);
    assert ten > 0 by { MulLe(1, 1, Pow10(kappa), Pow2(n)); }
    ghost var d := DigitVal(buffer[len - 1]);
    var m := GrisuRound(buffer, len, delta, tmp, ten, wpw);
    assert m < d by { if m >= d { MulLe(d, ten, m, ten); } }
    NumLowered(s, m);
    IntegerEnd(Num(s), m, Pow10(kappa), Pow2(n), r, mp, delta);
    assert buffer[..len] == s[len - 1 := DigitChar(d - m)];
  }

  /** DigitGen(W, Mp, delta, buffer, len, K): for every exponent in [-60, -32], non-zero integer part and
      0 < delta < Mp it terminates without 64-bit overflow, writes only digits, the first not '0', and the
      number they denote with the exponent added to K lies in [Mp - delta, Mp]. */
  method DigitGen(W: DiyFp, Mp: DiyFp, delta: nat, buffer: array<char>, K0: int) returns (len: nat, K: int)
    requires W.e == Mp.e && W.f <= Mp.f < TWO64 && -60 <= Mp.e <= -32
    requires Pow2(-Mp.e) <= Mp.f && 0 < delta < Mp.f && buffer.Length >= 29
    modifies buffer
    ensures 0 < len <= 29 && AllDigits(buffer[..len]) && buffer[0] != '0'
    ensures InRange(Mp.f, delta, -Mp.e, Num(buffer[..len]), K - K0)
    ensures -19 <= K - K0 < 10
  {
    hide IntegerLoop, FractionLoop, InRange, Num, Whole, Part, AllDigits, Pow10, Pow2;
    var mp, n := Mp.f, -Mp.e;
    var wpw := mp - W.f;
    WholePart(mp, n);
    var p1: nat := Whole(mp, n);
    var kappa: nat := CountDecimalDigit32(p1);
    IntegerStart(mp, n, delta);
    len, K := 0, K0;
    assert buffer[..0] == [];
    while kappa > 0
      invariant len <= 10 && kappa <= 10 && IntegerLoop(mp, n, delta, buffer[..len], p1, kappa)
      invariant kappa > 0 ==> Pow10(kappa - 1) * Pow2(n) <= mp
    {
      Headroom(kappa - 1, n, mp);
      var done;
      done, len, p1 := DigitTurn(mp, n, delta, buffer, len, p1, kappa, wpw);
      kappa := kappa - 1;
      if done {
        K := K0 + kappa;
        return;
      }
    }
    IntegerDone(mp, n, delta, buffer[..len], p1);
    FractionStart(mp, n, delta, buffer[..len]);
    var i;
    len, i := FractionDigits(mp, n, delta, buffer, len, wpw);
    K := K0 - i;
  }

  lemma IntegerStart(mp: nat, n: nat, delta: nat)
    requires 32 <= n && mp < TWO64 && Pow2(n) <= mp && delta < mp
    ensures var p1 := Whole(mp, n); var kappa := CountDecimalDigit32(p1);
            IntegerLoop(mp, n, delta, [], p1, kappa) && Pow10(kappa - 1) * Pow2(n) <= mp
  {
    WholePart(mp, n);
    var p1, one := Whole(mp, n), Pow2(n);
    DigitCount(p1);
    Divided(mp, one);
    hide Pow2, Pow10, CountDecimalDigit32;
    MulLe(Pow10(CountDecimalDigit32(p1) - 1), one, p1, one);
  }

  lemma IntegerDone(mp: nat, n: nat, delta: nat, s: seq<char>, p1: nat)
    requires IntegerLoop(mp, n, delta, s, p1, 0)
    ensures p1 == 0 && |s| <= 10
  {
    assert Pow10(0) == 1;
  }

  // One turn of the first loop of DigitGen; done when the rest fits into delta.
  method DigitTurn(mp: nat, n: nat, delta: nat, buffer: array<char>, len0: nat, p0: nat, kappa: nat, wpw: nat)
    returns (done: bool, len: nat, p1: nat)
    requires len0 <= 10 < buffer.Length && 0 < delta < mp < TWO64 && wpw < TWO64 && kappa > 0
    requires IntegerLoop(mp, n, delta, buffer[..len0], p0, kappa) && Pow10(kappa - 1) * Pow2(n) <= mp
    modifies buffer
    ensures len <= 10
    ensures if done then len > 0 && AllDigits(buffer[..len]) && buffer[0] != '0' && InRange(mp, delta, n, Num(buffer[..len]), kappa - 1)
            else IntegerLoop(mp, n, delta, buffer[..len], p1, kappa - 1)
  {
    hide IntegerLoop, InRange, Num, Whole, Part, AllDigits, Pow10, Pow2, Digit, Rest;
    IntegerTurn(mp, n, delta, buffer[..len0], p0, kappa);
    FirstDigit(mp, n, delta, buffer[..len0], p0, kappa);
    ghost var s := buffer[..len0];
    var d := p0 / KPOW10[kappa - 1];
    p1 := p0 % KPOW10[kappa - 1];
    len := len0;
    if d != 0 || len > 0 {
      buffer[len] := DigitChar(d);
      len := len + 1;
    }
    assert buffer[..len] == s + [DigitChar(d)];
    var tmp := p1 * Pow2(n) + Part(mp, n);
    done := tmp <= delta;
    if done {
      RoundInteger(mp, n, delta, buffer, len, p1, kappa - 1, wpw);
    }
  }

  // The digit and the rest by the table of powers.
  lemma FirstDigit(mp: nat, n: nat, delta: nat, s: seq<char>, p: nat, kappa: nat)
    requires IntegerLoop(mp, n, delta, s, p, kappa) && kappa > 0
    ensures kappa <= 10 && p / KPOW10[kappa - 1] == Digit(p, kappa - 1) && p % KPOW10[kappa - 1] == Rest(p, kappa - 1)
  {
    TablePowers(kappa - 1);
  }

  lemma WholePart(mp: nat, n: nat)
    requires 32 <= n && mp < TWO64 && Pow2(n) <= mp
    ensures 0 < mp / Pow2(n) < TWO32
    ensures 0 < Whole(mp, n) < TWO32
  {
    Pow2Of64();
    PowMonotone2(32, n);
    var q := mp / Pow2(n);
    if q >= TWO32 {
      MulLe(TWO32, TWO32, q, Pow2(n));
    }
  }
}
