/** Prettify and WriteExponent of dtoa_milo.h: the digits and the exponent written out in place as a
    decimal text. Read back as a decimal number, the text denotes exactly digits times 10^k. */
module GrisuText {
  import opened Powers
  import opened DiyFloat
  import opened GrisuDigits
  import opened Grisu

  // ---- what a decimal text denotes: digits [. digits] [e [-] digits] ----

  function Find(s: seq<char>, c: char): (i: nat)
    ensures i <= |s| && (i < |s| ==> s[i] == c)
  {
    if s == [] || s[0] == c then 0 else 1 + Find(s[1..], c)
  }

  function ReadInt(s: seq<char>): int {
    if s != [] && s[0] == '-' then -Num(s[1..]) else Num(s)
  }

  ghost function ReadDecimal(s: seq<char>): real {
    var e := Find(s, 'e');
    ReadMantissa(s[..e], if e < |s| then ReadInt(s[e + 1..]) else 0)
  }

  ghost function ReadMantissa(m: seq<char>, x: int): real {
    var p := Find(m, '.');
    var fraction := if p < |m| then m[p + 1..] else [];
    Decimal(Num(m[..p] + fraction), x - |fraction|)
  }

  ghost function Decimal(n: int, k: int): real { n as real * PowR(10, k) }

  predicate Lacks(s: seq<char>, c: char) { forall i :: 0 <= i < |s| ==> s[i] != c }

  lemma {:induction false} FindNone(a: seq<char>, c: char)
    requires Lacks(a, c)
    ensures Find(a, c) == |a|
  {
    if a != [] {
      FindNone(a[1..], c);
    }
  }

  lemma {:induction false} FindFirst(a: seq<char>, c: char, b: seq<char>)
    requires Lacks(a, c)
    ensures Find(a + [c] + b, c) == |a|
  {
    var s := a + [c] + b;
    if a == [] {
      assert s[0] == c;
    } else {
      assert s[0] == a[0];
      assert s[1..] == a[1..] + [c] + b;
      FindFirst(a[1..], c, b);
    }
  }

  function Pointed(whole: seq<char>, fraction: seq<char>): (m: seq<char>)
    ensures |m| == |whole| + 1 + |fraction|
  {
    whole + ['.'] + fraction
  }

  function Exponented(m: seq<char>, exponent: seq<char>): (s: seq<char>)
    ensures |s| == |m| + 1 + |exponent|
  {
    m + ['e'] + exponent
  }

  lemma ReadPointed(whole: seq<char>, fraction: seq<char>, x: int)
    requires AllDigits(whole)
    ensures ReadMantissa(Pointed(whole, fraction), x) == Decimal(Num(whole + fraction), x - |fraction|)
  {
    hide Decimal, Num, Find;
    FindFirst(whole, '.', fraction);
    var m := whole + ['.'] + fraction;
    assert m[|whole| + 1..] == fraction && m[..|whole|] == whole;
  }

  lemma ReadWhole(whole: seq<char>, x: int)
    requires AllDigits(whole)
    ensures ReadMantissa(whole, x) == Decimal(Num(whole), x)
  {
    hide Decimal, Num, Find;
    FindNone(whole, '.');
    assert whole[..|whole|] + [] == whole;
  }

  lemma ReadExponented(m: seq<char>, exponent: seq<char>)
    requires Lacks(m, 'e')
    ensures ReadDecimal(Exponented(m, exponent)) == ReadMantissa(m, ReadInt(exponent))
  {
    hide ReadMantissa, ReadInt, Find;
    FindFirst(m, 'e', exponent);
    var s := m + ['e'] + exponent;
    assert s[..|m|] == m && s[|m| + 1..] == exponent;
  }

  lemma ReadUnscaled(whole: seq<char>, fraction: seq<char>)
    requires AllDigits(whole) && AllDigits(fraction)
    ensures ReadDecimal(Pointed(whole, fraction)) == Decimal(Num(whole + fraction), -|fraction|)
  {
    hide Decimal, Num, Find, ReadMantissa;
    var s := Pointed(whole, fraction);
    assert Lacks(s, 'e');
    FindNone(s, 'e');
    assert s[..|s|] == s;
    ReadPointed(whole, fraction, 0);
  }

  lemma ReadScaled(whole: seq<char>, fraction: seq<char>, exponent: seq<char>)
    requires AllDigits(whole) && AllDigits(fraction)
    ensures ReadDecimal(Exponented(Pointed(whole, fraction), exponent))
         == Decimal(Num(whole + fraction), ReadInt(exponent) - |fraction|)
  {
    hide Decimal, Num, Find, ReadMantissa, ReadDecimal, ReadInt, Exponented;
    assert Lacks(Pointed(whole, fraction), 'e');
    ReadExponented(Pointed(whole, fraction), exponent);
    ReadPointed(whole, fraction, ReadInt(exponent));
  }

  lemma ReadWholeScaled(whole: seq<char>, exponent: seq<char>)
    requires AllDigits(whole)
    ensures ReadDecimal(Exponented(whole, exponent)) == Decimal(Num(whole), ReadInt(exponent))
  {
    hide Decimal, Num, Find, ReadMantissa, ReadDecimal, ReadInt, Exponented;
    ReadExponented(whole, exponent);
    ReadWhole(whole, ReadInt(exponent));
  }

  // ---- the text written ----

  function Zeros(n: nat): (z: seq<char>)
    ensures |z| == n && AllDigits(z)
  {
    seq(n, i => '0')
  }

  // WriteExponent: a sign, then the digits without leading zeros.
  function ExponentText(K: int): seq<char>
    requires -1000 < K < 1000
  {
    if K < 0 then ['-'] + Written(-K) else Written(K)
  }

  function Written(n: nat): (s: seq<char>)
    requires n < 1000
    ensures AllDigits(s) && 1 <= |s| <= 3
  {
    if n >= 100 then [DigitChar(n / 100), DigitChar(n % 100 / 10), DigitChar(n % 100 % 10)]
    else if n >= 10 then [DigitChar(n / 10), DigitChar(n % 10)]
    else [DigitChar(n)]
  }

  function Pretty(d: seq<char>, k: int): seq<char>
    requires d != [] && -1000 < |d| + k - 1 < 1000
  {
    var kk := |d| + k;
    if |d| <= kk <= 21 then Pointed(d + Zeros(kk - |d|), ['0'])
    else if 0 < kk <= 21 then Pointed(d[..kk], d[kk..])
    else if -6 < kk <= 0 then Pointed(['0'], Zeros(-kk) + d)
    else if |d| == 1 then Exponented(d, ExponentText(kk - 1))
    else Exponented(Pointed(d[..1], d[1..]), ExponentText(kk - 1))
  }

  lemma {:induction false} NumConcat(a: seq<char>, b: seq<char>)
    ensures Num(a + b) == Num(a) * Pow10(|b|) + Num(b)
  {
    hide Num, Pow10;
    if b == [] {
      NumNone();
      assert a + b == a;
    } else {
      var c := b[..|b| - 1];
      NumConcat(a, c);
      assert a + b == a + c + [b[|b| - 1]] && b == c + [b[|b| - 1]];
      NumAppend(a + c, b[|b| - 1]);
      NumAppend(c, b[|b| - 1]);
      TenTimes(|b|);
      MovedTen(Num(a), Pow10(|c|), Num(c));
    }
  }

  lemma NumNone()
    ensures Num([]) == 0 && Pow10(0) == 1
  {
  }

  lemma MovedTen(x: int, p: int, y: int)
    ensures 10 * (x * p + y) == x * (10 * p) + 10 * y
  {
  }

  lemma {:induction false} NumZeros(n: nat)
    ensures Num(Zeros(n)) == 0
  {
    if n > 0 {
      NumZeros(n - 1);
      assert Zeros(n)[..n - 1] == Zeros(n - 1);
    }
  }

  // Leading zeros count for nothing; trailing zeros scale.
  lemma ZerosAround(d: seq<char>, n: nat)
    ensures Num(Zeros(n) + d) == Num(d)
    ensures Num(d + Zeros(n)) == Num(d) * Pow10(n)
  {
    NumConcat(Zeros(n), d);
    NumConcat(d, Zeros(n));
    NumZeros(n);
  }

  lemma DecimalReads(n: nat)
    requires n < 1000
    ensures Num(Written(n)) == n
  {
    assert Num([]) == 0;
    var s := Written(n);
    if n >= 100 {
      assert s == [] + [s[0]] + [s[1]] + [s[2]];
      NumAppend([], s[0]);
      NumAppend([] + [s[0]], s[1]);
      NumAppend([] + [s[0]] + [s[1]], s[2]);
    } else if n >= 10 {
      assert s == [] + [s[0]] + [s[1]];
      NumAppend([], s[0]);
      NumAppend([] + [s[0]], s[1]);
    } else {
      assert s == [] + [s[0]];
      NumAppend([], s[0]);
    }
  }

  lemma ExponentReads(K: int)
    requires -1000 < K < 1000
    ensures ReadInt(ExponentText(K)) == K
  {
    if K < 0 {
      DecimalReads(-K);
      assert ExponentText(K)[1..] == Written(-K);
    } else {
      DecimalReads(K);
    }
  }

  lemma TrailingZeros(d: seq<char>, k: nat)
    ensures Decimal(Num(d + Zeros(k) + ['0']), -1) == Decimal(Num(d), k)
  {
    hide Num, PowR, Pow10, Pow;
    assert d + Zeros(k) + ['0'] == d + Zeros(k + 1);
    ZerosAround(d, k + 1);
    PowRAdd(10, k + 1, -1);
    PowR10(k + 1);
    ToReal(Num(d), Pow10(k + 1));
    AssocR(Num(d) as real, PowR(10, k + 1), PowR(10, -1));
  }

  // 1234e7 -> 12340000000.0
  lemma ZerosAfter(d: seq<char>, k: nat)
    requires d != [] && AllDigits(d) && |d| + k <= 21
    ensures ReadDecimal(Pretty(d, k)) == Decimal(Num(d), k)
  {
    hide ReadDecimal, Decimal, Num, Exponented, Pointed, ExponentText, AllDigits, Zeros;
    OneZero();
    DigitsJoin(d, Zeros(k));
    ReadUnscaled(d + Zeros(k), ['0']);
    TrailingZeros(d, k);
  }

  // 1234e-2 -> 12.34
  lemma PointInside(d: seq<char>, k: int)
    requires AllDigits(d) && k < 0 < |d| + k <= 21
    ensures ReadDecimal(Pretty(d, k)) == Decimal(Num(d), k)
  {
    hide ReadDecimal, Decimal, Num, Exponented, Pointed, ExponentText, AllDigits, Zeros;
    DigitsSplit(d, |d| + k);
    ReadUnscaled(d[..|d| + k], d[|d| + k..]);
  }

  // 1234e-6 -> 0.001234
  lemma ZerosBefore(d: seq<char>, k: int)
    requires d != [] && AllDigits(d) && -6 < |d| + k <= 0
    ensures ReadDecimal(Pretty(d, k)) == Decimal(Num(d), k)
  {
    hide ReadDecimal, Decimal, Num, Exponented, Pointed, ExponentText, AllDigits, Zeros;
    var n := -(|d| + k);
    OneZero();
    DigitsJoin(Zeros(n), d);
    ReadUnscaled(['0'], Zeros(n) + d);
    LeadingZeros(d, n);
  }

  lemma ScientificKeepsValue(d: seq<char>, k: int)
    requires d != [] && AllDigits(d) && -1000 < |d| + k - 1 < 1000 && !(-6 < |d| + k <= 21)
    ensures ReadDecimal(Pretty(d, k)) == Decimal(Num(d), k)
  {
    hide ReadDecimal, Decimal, Num, ExponentText, ReadInt, Zeros, Pointed, Exponented, AllDigits;
    var x := |d| + k - 1;
    ExponentReads(x);
    if |d| == 1 {
      ReadWholeScaled(d, ExponentText(x));
    } else {
      DigitsSplit(d, 1);
      ReadScaled(d[..1], d[1..], ExponentText(x));
    }
  }

  /** The text keeps the value, whichever of the five forms is chosen. */
  lemma PrettyKeepsValue(d: seq<char>, k: int)
    requires d != [] && AllDigits(d) && -1000 < |d| + k - 1 < 1000
    ensures ReadDecimal(Pretty(d, k)) == Decimal(Num(d), k)
  {
    hide *;
    if k >= 0 && |d| + k <= 21 {
      ZerosAfter(d, k);
    } else if 0 < |d| + k <= 21 {
      PointInside(d, k);
    } else if -6 < |d| + k <= 0 {
      ZerosBefore(d, k);
    } else {
      ScientificKeepsValue(d, k);
    }
  }

  lemma OneZero()
    ensures AllDigits(['0'])
  {
  }

  lemma DigitsSplit(d: seq<char>, i: nat)
    requires AllDigits(d) && i <= |d|
    ensures AllDigits(d[..i]) && AllDigits(d[i..]) && d[..i] + d[i..] == d
  {
  }

  lemma DigitsJoin(a: seq<char>, b: seq<char>)
    requires AllDigits(a) && AllDigits(b)
    ensures AllDigits(a + b)
  {
  }

  lemma LeadingZeros(d: seq<char>, n: nat)
    ensures Num(['0'] + (Zeros(n) + d)) == Num(d)
  {
    hide Num;
    assert ['0'] + (Zeros(n) + d) == Zeros(n + 1) + d;
    ZerosAround(d, n + 1);
  }

  // ---- written in place ----

  method Memmove(a: array<char>, dst: nat, src: nat, n: nat)
    requires dst + n <= a.Length && src + n <= a.Length
    modifies a
    ensures a[..dst] == old(a[..dst]) && a[dst..dst + n] == old(a[src..src + n]) && a[dst + n..] == old(a[dst + n..])
  {
    forall k | dst <= k < dst + n {
      a[k] := a[src + k - dst];
    }
    MovedSlices(old(a[..]), a[..], dst, src, n);
    assert a[..dst] == a[..][..dst] && a[dst..dst + n] == a[..][dst..dst + n] && a[dst + n..] == a[..][dst + n..];
  }

  lemma MovedSlices(b: seq<char>, a: seq<char>, dst: nat, src: nat, n: nat)
    requires |a| == |b| && dst + n <= |a| && src + n <= |a|
    requires forall k :: 0 <= k < |a| ==> (dst <= k < dst + n ==> a[k] == b[src + k - dst])
    requires forall k :: 0 <= k < |a| ==> (k < dst || dst + n <= k ==> a[k] == b[k])
    ensures a[..dst] == b[..dst] && a[dst..dst + n] == b[src..src + n] && a[dst + n..] == b[dst + n..]
  {
    var x, y := a[dst..dst + n], b[src..src + n];
    forall i | 0 <= i < n ensures x[i] == y[i] {
      assert a[dst + i] == b[src + i];
    }
    var t, u := a[dst + n..], b[dst + n..];
    forall i | 0 <= i < |t| ensures t[i] == u[i] {
      assert a[dst + n + i] == b[dst + n + i];
    }
  }

  // The digits of WriteExponent, after the sign.
  method WriteDigits(K0: nat, buffer: array<char>, at: nat) returns (p: nat)
    requires K0 < 1000 && at + 4 <= buffer.Length
    modifies buffer
    ensures buffer[..at] == old(buffer[..at])
    ensures p == at + |Written(K0)| && buffer[at..p] == Written(K0)
  {
    hide DigitChar;
    var K := K0;
    p := at;
    if K >= 100 {
      buffer[p] := DigitChar(K / 100);
      p := p + 1;
      K := K % 100;
      buffer[p], buffer[p + 1] := DigitChar(K / 10), DigitChar(K % 10);
      p := p + 2;
    } else if K >= 10 {
      buffer[p], buffer[p + 1] := DigitChar(K / 10), DigitChar(K % 10);
      p := p + 2;
    } else {
      buffer[p] := DigitChar(K);
      p := p + 1;
    }
  }

  /** WriteExponent(K, &buffer[at]). */
  method WriteExponent(K0: int, buffer: array<char>, at: nat)
    requires -1000 < K0 < 1000 && at + 5 <= buffer.Length
    modifies buffer
    ensures buffer[..at] == old(buffer[..at])
    ensures at + |ExponentText(K0)| < buffer.Length
    ensures buffer[at..at + |ExponentText(K0)| + 1] == ExponentText(K0) + ['\0']
  {
    hide Written;
    var K, q := K0, at;
    if K < 0 {
      buffer[q] := '-';
      q := q + 1;
      K := -K;
    }
    ghost var b0, b1 := old(buffer[..]), buffer[..];
    var p := WriteDigits(K, buffer, q);
    ghost var b2 := buffer[..];
    buffer[p] := '\0';
    Behind(b0, b1, b2, buffer[..], at, q, p);
  }

  // A text in two parts and its terminator.
  lemma Behind(b0: seq<char>, b1: seq<char>, b2: seq<char>, b3: seq<char>, at: nat, q: nat, p: nat)
    requires at <= q <= p < |b2| && |b0| == |b1| == |b2| && b1[..at] == b0[..at] && b2[..q] == b1[..q] && b3 == b2[p := '\0']
    ensures b3[..at] == b0[..at] && b3[at..p + 1] == b1[at..q] + b2[q..p] + ['\0']
  {
    assert b2[at..q] == b2[..q][at..] && b1[at..q] == b1[..q][at..];
    assert b2[..at] == b2[..q][..at] && b1[..at] == b1[..q][..at];
  }

  method FillZeros(buffer: array<char>, from: nat, to: nat)
    requires from <= to <= buffer.Length
    modifies buffer
    ensures buffer[..from] == old(buffer[..from]) && buffer[from..to] == Zeros(to - from) && buffer[to..] == old(buffer[to..])
  {
    var i := from;
    while i < to
      invariant from <= i <= to
      invariant buffer[..from] == old(buffer[..from]) && buffer[from..i] == Zeros(i - from) && buffer[i..] == old(buffer[i..])
    {
      buffer[i] := '0';
      i := i + 1;
    }
  }

  lemma Cut(s: seq<char>, i: nat, j: nat)
    requires i <= j <= |s|
    ensures s[..j] == s[..i] + s[i..j]
  {
  }

  // 1234e7 -> 12340000000.0
  method AppendZeros(buffer: array<char>, length: nat, kk: nat)
    requires length <= kk && kk + 2 < buffer.Length
    modifies buffer
    ensures buffer[..kk + 3] == Pointed(old(buffer[..length]) + Zeros(kk - length), ['0']) + ['\0']
  {
    hide Zeros;
    FillZeros(buffer, length, kk);
    Cut(buffer[..], length, kk);
    ghost var s := buffer[..kk];
    buffer[kk] := '.';
    buffer[kk + 1] := '0';
    buffer[kk + 2] := '\0';
    assert buffer[..kk] == s;
  }

  // 1234e-2 -> 12.34
  method InsertPoint(buffer: array<char>, length: nat, kk: nat)
    requires kk < length && length + 1 < buffer.Length
    modifies buffer
    ensures buffer[..length + 2] == Pointed(old(buffer[..kk]), old(buffer[kk..length])) + ['\0']
  {
    Memmove(buffer, kk + 1, kk, length - kk);
    ghost var b := buffer[..];
    buffer[kk] := '.';
    buffer[length + 1] := '\0';
    PointedText(b, buffer[..], kk, length);
    assert b[..kk] == b[..kk + 1][..kk] && old(buffer[..kk]) == old(buffer[..kk + 1])[..kk];
  }

  lemma PointedText(b: seq<char>, a: seq<char>, kk: nat, length: nat)
    requires kk < length && length + 1 < |b| && a == b[kk := '.'][length + 1 := '\0']
    ensures a[..length + 2] == Pointed(b[..kk], b[kk + 1..length + 1]) + ['\0']
  {
  }

  // 1234e-6 -> 0.001234
  method ShiftByZeros(buffer: array<char>, length: nat, offset: nat)
    requires 2 <= offset && length + offset < buffer.Length
    modifies buffer
    ensures buffer[..length + offset + 1] == Pointed(['0'], Zeros(offset - 2) + old(buffer[..length])) + ['\0']
  {
    hide Zeros, Pointed;
    ghost var d := buffer[..length];
    Memmove(buffer, offset, 0, length);
    ZeroPointZeros(buffer, offset, length);
    buffer[length + offset] := '\0';
    LeadingText(buffer[..], offset, d);
  }

  // 0. and zeros in front of what has been moved to offset.
  method ZeroPointZeros(buffer: array<char>, offset: nat, length: nat)
    requires 2 <= offset && length + offset < buffer.Length
    modifies buffer
    ensures buffer[0] == '0' && buffer[1] == '.' && buffer[2..offset] == Zeros(offset - 2)
    ensures buffer[offset..offset + length] == old(buffer[offset..offset + length])
  {
    hide Zeros;
    buffer[0] := '0';
    buffer[1] := '.';
    ghost var rest := buffer[offset..];
    FillZeros(buffer, 2, offset);
    assert buffer[..2][0] == '0' && buffer[..2][1] == '.';
    assert buffer[offset..][..length] == rest[..length];
  }

  lemma LeadingText(b: seq<char>, offset: nat, d: seq<char>)
    requires 2 <= offset && offset + |d| < |b| && b[0] == '0' && b[1] == '.' && b[2..offset] == Zeros(offset - 2)
    requires b[offset..offset + |d|] == d && b[offset + |d|] == '\0'
    ensures b[..|d| + offset + 1] == Pointed(['0'], Zeros(offset - 2) + d) + ['\0']
  {
    hide Zeros;
    Cut(b, 2, offset);
    Cut(b, offset, offset + |d|);
    Cut(b, offset + |d|, offset + |d| + 1);
    assert b[..2] == ['0'] + ['.'];
    assert (['0'] + ['.']) + Zeros(offset - 2) + d == ['0'] + ['.'] + (Zeros(offset - 2) + d);
  }

  // 1e30
  method OneDigitExponent(buffer: array<char>, x: int)
    requires 7 <= buffer.Length && -1000 < x < 1000
    modifies buffer
    ensures var t := Exponented(old(buffer[..1]), ExponentText(x)); |t| < buffer.Length && buffer[..|t| + 1] == t + ['\0']
  {
    hide ExponentText;
    buffer[1] := 'e';
    ghost var s := buffer[..2];
    WriteExponent(x, buffer, 2);
    Cut(buffer[..], 2, 2 + |ExponentText(x)| + 1);
  }

  // 1234e30 -> 1.234e33
  method ManyDigitsExponent(buffer: array<char>, length: nat, x: int)
    requires 1 < length && length + 7 <= buffer.Length && -1000 < x < 1000
    modifies buffer
    ensures var t := Exponented(Pointed(old(buffer[..1]), old(buffer[1..length])), ExponentText(x));
            |t| < buffer.Length && buffer[..|t| + 1] == t + ['\0']
  {
    hide ExponentText;
    ghost var a, b := buffer[..1], buffer[1..length];
    Memmove(buffer, 2, 1, length - 1);
    assert buffer[2..length + 1] == b && buffer[0] == a[0];
    buffer[1] := '.';
    buffer[length + 1] := 'e';
    assert buffer[2..length + 1] == b;
    assert buffer[..length + 2] == a + ['.'] + b + ['e'];
    WriteExponent(x, buffer, length + 2);
    Cut(buffer[..], length + 2, length + 2 + |ExponentText(x)| + 1);
  }

  /** Prettify(buffer, length, k): the first length characters become the text, closed by a zero character. */
  method Prettify(buffer: array<char>, length: nat, k: int)
    requires 0 < length && length + 24 <= buffer.Length && -1000 < length + k - 1 < 1000
    modifies buffer
    ensures var t := Pretty(old(buffer[..length]), k); |t| < buffer.Length && buffer[..|t| + 1] == t + ['\0']
  {
    hide ExponentText, Zeros, Pointed, Exponented;
    var kk := length + k;
    ghost var d := buffer[..length];
    if length <= kk && kk <= 21 {
      AppendZeros(buffer, length, kk);
    } else if 0 < kk && kk <= 21 {
      InsertPoint(buffer, length, kk);
      assert old(buffer[..kk]) == d[..kk] && old(buffer[kk..length]) == d[kk..];
    } else if -6 < kk && kk <= 0 {
      ShiftByZeros(buffer, length, 2 - kk);
    } else if length == 1 {
      OneDigitExponent(buffer, kk - 1);
    } else {
      ManyDigitsExponent(buffer, length, kk - 1);
      assert old(buffer[..1]) == d[..1] && old(buffer[1..length]) == d[1..];
    }
  }

  // ---- dtoa_milo ----

  const SIGN := 0x8000_0000_0000_0000      // the sign bit of a double

  // The value of a double that is no NaN.
  ghost function SignedValue(word: nat): real { if word >= SIGN then -Value(word - SIGN) else Value(word) }

  // The decimal number a text with or without a sign denotes.
  ghost function ReadSigned(s: seq<char>): real {
    if s != [] && s[0] == '-' then -ReadDecimal(s[1..]) else ReadDecimal(s)
  }

  predicate IsDouble(word: nat) { word < 2 * SIGN }

  function Magnitude(word: nat): nat { if word >= SIGN then word - SIGN else word }

  // Nearer to the double than to any double of another value; the infinities count as 2^1024.
  ghost predicate Nearest(x: real, word: nat) {
    forall other: nat :: IsDouble(other) && Magnitude(other) <= INFINITY && SignedValue(other) != SignedValue(word)
      ==> Abs(x - SignedValue(word)) < Abs(x - SignedValue(other))
  }

  // What is looked up for a finite double: a power of ten that brings its exponent into range.
  ghost predicate PowerFor(bits: nat, c: DiyFp, K0: int)
    requires 0 < bits < INFINITY
  {
    CachedPower(c, K0) && -60 <= Boundaries(FromBits(bits)).1.e + c.e + 64 <= -32 && -340 <= K0 <= 348
  }

  // The text of a positive finite double.
  method PrintPositive(bits: nat, c: DiyFp, K0: int, buffer: array<char>) returns (ghost text: seq<char>)
    requires 0 < bits < INFINITY && buffer.Length >= 29 + 24
    requires PowerFor(bits, c, K0)
    modifies buffer
    ensures 0 < |text| < buffer.Length && buffer[..|text| + 1] == text + ['\0'] && text[0] != '-'
    ensures Value(bits - 1) + Value(bits) < 2.0 * ReadDecimal(text) < Value(bits) + Value(bits + 1)
  {
    hide Pretty, ReadDecimal, Num, PowR, Value, Boundaries, FromBits, CachedPower;
    var length, K := Grisu2(bits, c, K0, buffer);
    ghost var d := buffer[..length];
    Prettify(buffer, length, K);
    text := Pretty(d, K);
    PrettyStarts(d, K);
    PrettyKeepsValue(d, K);
  }

  lemma PrettyStarts(d: seq<char>, k: int)
    requires d != [] && AllDigits(d) && -1000 < |d| + k - 1 < 1000
    ensures Pretty(d, k) != [] && Pretty(d, k)[0] != '-'
  {
    assert IsDigit(d[0]);
  }

  // Inside the interval of its magnitude a number is nearest among the doubles of either sign.
  lemma PositiveNearest(bits: nat, t: real)
    requires 0 < bits < INFINITY && Value(bits - 1) + Value(bits) < 2.0 * t < Value(bits) + Value(bits + 1)
    ensures t > 0.0 && Nearest(t, bits) && Nearest(-t, bits + SIGN)
  {
    hide Value;
    ZeroLeast(bits - 1);
    ZeroLeast(bits);
    forall other: nat | other <= INFINITY && other != bits
      ensures Abs(t - Value(bits)) < Abs(t - Value(other)) && Abs(t - Value(bits)) < t + Value(other)
    {
      IntervalIsNearest(bits, t, other);
      IntervalIsNearest(bits, t, 0);
      ZeroLeast(other);
    }
    OwnNegative(bits, t);
  }

  lemma OwnNegative(bits: nat, t: real)
    requires 0 < bits && 0.0 < t && 0.0 < Value(bits)
    ensures Abs(t - Value(bits)) < t + Value(bits)
  {
  }

  lemma ZeroLeast(bits: nat)
    requires bits <= INFINITY
    ensures Value(0) == 0.0 <= Value(bits) && (bits > 0 ==> Value(bits) > 0.0)
  {
    hide Value;
    ValueOfZero();
    if bits > 0 {
      Monotone(0, bits);
    }
  }

  lemma ValueOfZero()
    ensures Value(0) == 0.0
  {
    hide PowR;
    assert FromBits(0).f == 0;
  }

  lemma ZeroNearest(word: nat)
    requires word == 0 || word == SIGN
    ensures ReadSigned("0.0") == 0.0 && Nearest(0.0, word)
  {
    hide Value, PowR, ReadDecimal;
    ReadZero();
    ZeroLeast(0);
    forall other: nat | IsDouble(other) && Magnitude(other) <= INFINITY && SignedValue(other) != SignedValue(word)
      ensures Abs(0.0 - SignedValue(word)) < Abs(0.0 - SignedValue(other))
    {
      ZeroLeast(Magnitude(other));
    }
  }

  lemma ReadZero()
    ensures ReadDecimal("0.0") == 0.0
  {
    hide PowR, ReadDecimal;
    assert "0.0" == Pointed(['0'], ['0']);
    ReadUnscaled(['0'], ['0']);
    ZerosAround([], 2);
    assert Zeros(2) + [] == ['0'] + ['0'];
  }

  // A text with its terminator at the start of the buffer.
  ghost predicate Holds(buffer: array<char>, text: seq<char>)
    reads buffer
  {
    |text| < buffer.Length && buffer[..|text| + 1] == text + ['\0']
  }

  method Put3(buffer: array<char>, a: char, b: char, c: char)
    requires buffer.Length > 3
    modifies buffer
    ensures Holds(buffer, [a, b, c])
  {
    buffer[0], buffer[1], buffer[2], buffer[3] := a, b, c, '\0';
  }

  // A minus sign, and the text of the magnitude behind it.
  method PrintNegative(bits: nat, c: DiyFp, K0: int, buffer: array<char>) returns (ghost text: seq<char>)
    requires 0 < bits < INFINITY && buffer.Length > 29 + 24
    requires PowerFor(bits, c, K0)
    modifies buffer
    ensures 0 < |text| && text[0] == '-' && Holds(buffer, text)
    ensures Value(bits - 1) + Value(bits) < 2.0 * ReadDecimal(text[1..]) < Value(bits) + Value(bits + 1)
  {
    hide ReadDecimal, Value, PowerFor;
    var rest := new char[buffer.Length - 1];
    ghost var t := PrintPositive(bits, c, K0, rest);
    buffer[0] := '-';
    forall i | 0 <= i < rest.Length {
      buffer[i + 1] := rest[i];
    }
    text := ['-'] + t;
    Shifted(buffer[..], rest[..], t);
    assert text[1..] == t;
  }

  lemma Shifted(b: seq<char>, r: seq<char>, t: seq<char>)
    requires |b| == |r| + 1 && b[0] == '-' && (forall i :: 0 <= i < |r| ==> b[i + 1] == r[i]) && |t| < |r| && r[..|t| + 1] == t + ['\0']
    ensures b[..|t| + 2] == ['-'] + t + ['\0']
  {
    assert b[..|t| + 2] == ['-'] + r[..|t| + 1];
    assert ['-'] + (t + ['\0']) == ['-'] + t + ['\0'];
  }

  /** dtoa_milo, for any double: the text of a finite one reads back nearer to it than to a double of any other
      value, with the sign of the double unless that is a zero; the infinities are printed without their sign. */
  method DtoaMilo(word: nat, c: DiyFp, K0: int, buffer: array<char>) returns (ghost text: seq<char>)
    requires IsDouble(word) && buffer.Length > 29 + 24
    requires 0 < Magnitude(word) < INFINITY ==> PowerFor(Magnitude(word), c, K0)
    modifies buffer
    ensures Holds(buffer, text)
    ensures Magnitude(word) > INFINITY ==> text == "NaN"
    ensures Magnitude(word) == INFINITY ==> text == "inf"
    ensures Magnitude(word) == 0 ==> text == "0.0"
    ensures Magnitude(word) < INFINITY ==> Nearest(ReadSigned(text), word)
    ensures 0 < Magnitude(word) < INFINITY ==> |text| > 0 && (text[0] == '-' <==> word >= SIGN)
  {
    hide ReadDecimal, Value, PowerFor, Nearest;
    var bits := Magnitude(word);
    if bits > INFINITY {
      Put3(buffer, 'N', 'a', 'N');
      text := "NaN";
    } else if bits == INFINITY {
      Put3(buffer, 'i', 'n', 'f');
      text := "inf";
    } else if bits == 0 {
      Put3(buffer, '0', '.', '0');
      text := "0.0";
      ZeroNearest(word);
    } else if word >= SIGN {
      text := PrintNegative(bits, c, K0, buffer);
      PositiveNearest(bits, ReadDecimal(text[1..]));
    } else {
      text := PrintPositive(bits, c, K0, buffer);
      PositiveNearest(bits, ReadDecimal(text));
    }
  }
}
