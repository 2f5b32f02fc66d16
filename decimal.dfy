/**
 * Decimal representations of natural numbers: Python's `str(n)` and `int(s)`
 * restricted to non-negative integers and ASCII digit strings, with the
 * arithmetic facts the integer-range synthesis relies on.
 */
module Decimal {

  function Pow10(k: nat): (r: nat)
    ensures r >= 1
    ensures k > 0 ==> r >= 10
  {
    if k == 0 then 1 else 10 * Pow10(k - 1)
  }

  predicate IsDigit(c: char) {
    '0' <= c <= '9'
  }

  predicate AllDigits(s: string) {
    forall i :: 0 <= i < |s| ==> IsDigit(s[i])
  }

  function DigitChar(d: nat): (c: char)
    requires d < 10
    ensures IsDigit(c)
  {
    ('0' as int + d) as char
  }

  function DigitOf(c: char): (d: nat)
    requires IsDigit(c)
    ensures d < 10 && DigitChar(d) == c
  {
    c as int - '0' as int
  }

  /** `str(n)`: the decimal representation, without leading zeros. */
  function Str(n: nat): (s: string)
    ensures |s| >= 1 && AllDigits(s)
  {
    if n < 10 then [DigitChar(n)] else Str(n / 10) + [DigitChar(n % 10)]
  }

  /** `int(s)` of a string of ASCII digits (0 for the empty string). */
  function Value(s: string): nat
    requires AllDigits(s)
  {
    if s == [] then 0 else Value(s[..|s| - 1]) * 10 + DigitOf(s[|s| - 1])
  }

  /** A string that `str` can produce: digits, no leading zero unless it is "0". */
  predicate Canonical(s: string) {
    |s| >= 1 && AllDigits(s) && (s[0] == '0' ==> |s| == 1)
  }

  // ---------------------------------------------------------------------
  // Division facts

  /** A positive multiple of d is at least d. */
  lemma {:induction false} MulAtLeast(k: int, d: int)
    requires k >= 1 && d > 0
    ensures k * d >= d
  {
    assert k * d == (k - 1) * d + d;
  }

  lemma {:induction false} DivModUnique(a: int, d: int, q: int, r: int)
    requires d > 0 && 0 <= r < d && a == q * d + r
    ensures a / d == q && a % d == r
  {
    var q', r' := a / d, a % d;
    assert a == q' * d + r' && 0 <= r' < d;
    if q > q' {
      assert q * d == q' * d + (q - q') * d;
      MulAtLeast(q - q', d);
    } else if q < q' {
      assert q' * d == q * d + (q' - q) * d;
      MulAtLeast(q' - q, d);
    }
  }

  lemma {:induction false} NestedRemainder(a: nat, b: nat, r1: nat, r2: nat)
    requires r1 < a && r2 < b
    ensures r2 * a + r1 < a * b
  {
    MulLe(r2, b - 1, a);
    assert (b - 1) * a == a * b - a;
  }

  lemma {:induction false} NestedQuotient(n: int, a: int, b: int, q1: int, r1: int, q2: int, r2: int)
    requires n == q1 * a + r1 && q1 == q2 * b + r2
    ensures n == q2 * (a * b) + (r2 * a + r1)
  {
    assert q1 * a == (q2 * b) * a + r2 * a;
    assert (q2 * b) * a == q2 * (a * b);
  }

  lemma {:induction false} DivDiv(n: nat, a: nat, b: nat)
    requires a > 0 && b > 0
    ensures n / a / b == n / (a * b)
  {
    var q1, r1 := n / a, n % a;
    var q2, r2 := q1 / b, q1 % b;
    NestedQuotient(n, a, b, q1, r1, q2, r2);
    NestedRemainder(a, b, r1, r2);
    DivModUnique(n, a * b, q2, r2 * a + r1);
  }

  /** The quotient of a natural number by a positive one is natural. */
  lemma {:induction false} DivOfNat(x: nat, d: nat)
    requires d >= 1
    ensures x / d >= 0
  {
  }

  lemma {:induction false} DivMonotone(x: nat, y: nat, d: nat)
    requires d > 0 && x <= y
    ensures x / d <= y / d
  {
    var qx, qy := x / d, y / d;
    assert qx * d <= x && y < qy * d + d;
    if qx > qy {
      assert qx * d == qy * d + (qx - qy) * d;
      MulAtLeast(qx - qy, d);
    }
  }

  lemma {:induction false} Pow10Add(i: nat, j: nat)
    ensures Pow10(i + j) == Pow10(i) * Pow10(j)
    decreases i
  {
    if i > 0 {
      Pow10Add(i - 1, j);
    }
  }

  lemma {:induction false} Pow10Monotone(i: nat, j: nat)
    requires i <= j
    ensures Pow10(i) <= Pow10(j)
    decreases j
  {
    if i < j {
      Pow10Monotone(i, j - 1);
    }
  }

  /** Dividing by 10^(k+1) is dividing by 10^k and then by 10. */
  lemma {:induction false} DivPow10Succ(n: nat, k: nat)
    ensures n / Pow10(k) / 10 == n / Pow10(k + 1)
    ensures n / 10 / Pow10(k) == n / Pow10(k + 1)
  {
    DivDiv(n, Pow10(k), 10);
    DivDiv(n, 10, Pow10(k));
    assert Pow10(k + 1) == 10 * Pow10(k);
  }

  // ---------------------------------------------------------------------
  // Values of digit strings

  lemma {:induction false} AllDigitsConcat(x: string, y: string)
    requires AllDigits(x) && AllDigits(y)
    ensures AllDigits(x + y)
  {
    var xy := x + y;
    forall i | 0 <= i < |xy| ensures IsDigit(xy[i]) {
      if i < |x| { assert xy[i] == x[i]; } else { assert xy[i] == y[i - |x|]; }
    }
  }

  lemma {:induction false} ShiftArith(a: int, p: int, b: int, c: int)
    ensures (a * p + b) * 10 + c == a * (10 * p) + (b * 10 + c)
  {
  }

  lemma {:induction false} ValueAppend(x: string, y: string)
    requires AllDigits(x) && AllDigits(y)
    ensures AllDigits(x + y)
    ensures Value(x + y) == Value(x) * Pow10(|y|) + Value(y)
    decreases |y|
  {
    AllDigitsConcat(x, y);
    var xy := x + y;
    if y == [] {
      assert xy == x;
    } else {
      var y' := y[..|y| - 1];
      var c := DigitOf(y[|y| - 1]);
      assert xy[..|xy| - 1] == x + y';
      assert xy[|xy| - 1] == y[|y| - 1];
      assert AllDigits(y');
      ValueAppend(x, y');
      assert Value(xy) == Value(x + y') * 10 + c;
      ShiftArith(Value(x), Pow10(|y'|), Value(y'), c);
    }
  }

  lemma {:induction false} ValueBound(s: string)
    requires AllDigits(s)
    ensures Value(s) < Pow10(|s|)
    decreases |s|
  {
    if s != [] {
      ValueBound(s[..|s| - 1]);
    }
  }

  lemma {:induction false} ValueSingle(c: char)
    requires IsDigit(c)
    ensures Value([c]) == DigitOf(c)
  {
    assert [c][..0] == [];
  }

  /** int(str(n)) == n */
  lemma {:induction false} ValueStr(n: nat)
    ensures Value(Str(n)) == n
    decreases n
  {
    if n < 10 {
      ValueSingle(DigitChar(n));
    } else {
      var s := Str(n);
      assert s[..|s| - 1] == Str(n / 10);
      ValueStr(n / 10);
    }
  }

  /** str(n) is canonical, and its length pins n between two powers of ten. */
  lemma {:induction false} StrCanonical(n: nat)
    ensures Canonical(Str(n))
    ensures (Str(n)[0] == '0') <==> n == 0
    ensures n < Pow10(|Str(n)|)
    ensures n > 0 ==> Pow10(|Str(n)| - 1) <= n
    decreases n
  {
    if n >= 10 {
      StrCanonical(n / 10);
      assert Str(n)[0] == Str(n / 10)[0];
    }
  }

  /** str(int(s)) == s for canonical s. */
  lemma {:induction false} StrValue(s: string)
    requires Canonical(s)
    ensures Str(Value(s)) == s
    decreases |s|
  {
    if |s| == 1 {
      ValueSingle(s[0]);
    } else {
      var p := s[..|s| - 1];
      assert Canonical(p);
      StrValue(p);
      var n := Value(s);
      var d := DigitOf(s[|s| - 1]);
      assert n == Value(p) * 10 + d;
      assert p[0] == s[0];
      DivModUnique(n, 10, Value(p), d);
    }
  }

  /** |str(n)| > k exactly when n >= 10^k (for k >= 1). */
  lemma {:induction false} StrLongerThan(n: nat, k: nat)
    requires k >= 1
    ensures k < |Str(n)| <==> n >= Pow10(k)
  {
    StrCanonical(n);
    var L := |Str(n)|;
    if k < L {
      Pow10Monotone(k, L - 1);
    } else {
      Pow10Monotone(L, k);
    }
  }

  /** Splitting a digit string at k splits its value into quotient and remainder. */
  lemma {:induction false} SplitValue(s: string, k: nat)
    requires AllDigits(s) && k <= |s|
    ensures AllDigits(s[..k]) && AllDigits(s[k..])
    ensures Value(s[..k]) == Value(s) / Pow10(|s| - k)
    ensures Value(s[k..]) == Value(s) % Pow10(|s| - k)
  {
    assert s == s[..k] + s[k..];
    assert AllDigits(s[..k]) by {
      forall i | 0 <= i < k ensures IsDigit(s[..k][i]) { assert s[..k][i] == s[i]; }
    }
    assert AllDigits(s[k..]) by {
      forall i | 0 <= i < |s| - k ensures IsDigit(s[k..][i]) { assert s[k..][i] == s[k + i]; }
    }
    ValueAppend(s[..k], s[k..]);
    ValueBound(s[k..]);
    DivModUnique(Value(s), Pow10(|s| - k), Value(s[..k]), Value(s[k..]));
  }

  /** Dropping the last k characters of str(n) gives str(q), q = n / 10^k. */
  lemma {:induction false} StrPrefix(n: nat, k: nat, q: nat)
    requires k < |Str(n)| && q == n / Pow10(k)
    ensures Str(n)[..|Str(n)| - k] == Str(q)
  {
    var s := Str(n);
    StrCanonical(n);
    ValueStr(n);
    SplitValue(s, |s| - k);
    var p := s[..|s| - k];
    assert Canonical(p) by {
      assert p[0] == s[0];
    }
    StrValue(p);
  }

  /** The i-th digit from the right of str(x), arithmetically. */
  lemma {:induction false} DigitFromRight(x: nat, i: nat)
    requires i < |Str(x)|
    ensures DigitOf(Str(x)[|Str(x)| - 1 - i]) == (x / Pow10(i)) % 10
  {
    var s := Str(x);
    var L := |s|;
    ValueStr(x);
    SplitValue(s, L - i);
    var p := s[..L - i];
    assert p[..|p| - 1] == s[..L - i - 1];
    assert p[|p| - 1] == s[L - 1 - i];
    DivModUnique(Value(p), 10, Value(p[..|p| - 1]), DigitOf(s[L - 1 - i]));
  }

  lemma {:induction false} ShiftDigit(x: nat, digit: nat, i: nat)
    ensures (x * 10 + digit) * Pow10(i) == x * Pow10(i + 1) + digit * Pow10(i)
  {
    var p := Pow10(i);
    assert Pow10(i + 1) == 10 * p;
    assert (x * 10 + digit) * p == x * (10 * p) + digit * p;
  }

  /** The value of u, then digit c, then t. */
  lemma {:induction false} ValueSplice(u: string, c: char, t: string)
    requires AllDigits(u) && IsDigit(c) && AllDigits(t)
    ensures AllDigits(u + [c] + t)
    ensures Value(u + [c] + t) == Value(u) * Pow10(|t| + 1) + DigitOf(c) * Pow10(|t|) + Value(t)
  {
    ValueSingle(c);
    ValueAppend(u, [c]);
    ValueAppend(u + [c], t);
    ShiftDigit(Value(u), DigitOf(c), |t|);
  }

  lemma {:induction false} MulLe(x: nat, y: nat, p: nat)
    requires x <= y
    ensures x * p <= y * p
  {
    assert y * p == x * p + (y - x) * p;
  }

  /** Contrapositive of MulLe for a positive factor. */
  lemma {:induction false} MulLtCancel(x: nat, y: nat, p: nat)
    requires p > 0 && x * p < y * p
    ensures x < y
  {
    if x >= y {
      MulLe(y, x, p);
    }
  }
}
