/**
 * Synthesis of a regular expression matching exactly the decimal
 * representations of the integers in a range [a, b].  The regex is a list of
 * "single ranges" joined by `|`; a single range is a fixed prefix, one digit
 * class, and a run of `\d`.
 */
module NumRange {
  import opened Decimal
  import opened Errors

  // ---------------------------------------------------------------------
  // Python helpers

  /** Normalises a Python slice bound `k` for a sequence of length `len`. */
  function SliceBound(k: int, len: nat): (r: nat)
    ensures r <= len
    ensures k >= 0 ==> r == (if k <= len then k else len)
    ensures k < 0 ==> r == (if k + len >= 0 then k + len else 0)
  {
    if k < 0 then (if k + len < 0 then 0 else k + len)
    else if k > len then len else k
  }

  // ---------------------------------------------------------------------
  // Digit manipulation

  /**
   * `replace_with(a, i, digit)`: the number whose decimal string is str(a)
   * with its i-th digit from the right replaced by `digit`.
   */
  function ReplaceWith(a: nat, i: nat, digit: nat): nat
  {
    var s := Str(a);
    var above := s[..SliceBound(-(i as int) - 1, |s|)];
    var below := if i > 0 then s[SliceBound(-(i as int), |s|)..] else "";
    assert AllDigits(above) && AllDigits(below);
    AllDigitsConcat(above, Str(digit));
    AllDigitsConcat(above + Str(digit), below);
    Value(above + Str(digit) + below)
  }

  /**
   * For a digit and a position inside str(a), or just above its leading
   * digit, replace_with keeps the digits of a above and below position i and
   * puts `digit` at position i; at i == len(str(a)) the digit is prepended.
   */
  lemma {:induction false} ReplaceWithArith(a: nat, i: nat, digit: nat)
    requires digit < 10 && i <= |Str(a)|
    ensures ReplaceWith(a, i, digit)
         == (a / Pow10(i + 1)) * Pow10(i + 1) + digit * Pow10(i) + a % Pow10(i)
  {
    var s := Str(a);
    var k := if i < |s| then |s| - i - 1 else 0;
    assert s[..SliceBound(-(i as int) - 1, |s|)] == s[..k];
    assert (if i > 0 then s[SliceBound(-(i as int), |s|)..] else "") == s[|s| - i..];
    ReplaceWithValue(a, i, digit);
  }

  /**
   * The string replace_with builds: the digits of a above position i (none
   * when i == len(str(a))), the new digit, and the i digits below.
   */
  lemma {:induction false} ReplaceWithValue(a: nat, i: nat, digit: nat)
    requires digit < 10 && i <= |Str(a)|
    ensures var s := Str(a);
      AllDigits(s[..if i < |s| then |s| - i - 1 else 0] + Str(digit) + s[|s| - i..])
    ensures var s := Str(a);
      Value(s[..if i < |s| then |s| - i - 1 else 0] + Str(digit) + s[|s| - i..])
        == (a / Pow10(i + 1)) * Pow10(i + 1) + digit * Pow10(i) + a % Pow10(i)
  {
    var s := Str(a);
    var L := |s|;
    assert Str(digit) == [DigitChar(digit)];
    ValueStr(a);
    if i < L {
      var u, t := s[..L - i - 1], s[L - i..];
      SplitValue(s, L - i - 1);
      SplitValue(s, L - i);
      ValueSpliceAt(u, DigitChar(digit), t, a / Pow10(i + 1), digit, a % Pow10(i), i);
    } else {
      assert s[..0] == [] && s[L - i..] == s;
      StrCanonical(a);
      Pow10Monotone(L, L + 1);
      DivModUnique(a, Pow10(L + 1), 0, a);
      DivModUnique(a, Pow10(L), 0, a);
      ValueSpliceAt([], DigitChar(digit), s, 0, digit, a, L);
    }
  }

  /** The prepend case of replace_with, as the module's own asserts state it. */
  lemma ReplaceWithPrepends()
    ensures ReplaceWith(8999, 4, 9) == 98999
    ensures ReplaceWith(8999, 4, 5) == 58999
  {
    StrLongerThan(8999, 3);
    StrLongerThan(8999, 4);
    ReplaceWithArith(8999, 4, 9);
    ReplaceWithArith(8999, 4, 5);
  }

  lemma ValueSpliceAt(u: string, c: char, t: string, high: nat, digit: nat, low: nat, n: nat)
    requires AllDigits(u) && IsDigit(c) && AllDigits(t)
    requires Value(u) == high && DigitOf(c) == digit && Value(t) == low && |t| == n
    ensures AllDigits(u + [c] + t)
    ensures Value(u + [c] + t) == high * Pow10(n + 1) + digit * Pow10(n) + low
  {
    ValueSplice(u, c, t);
  }

  /** `digit_at(x, i)`: the i-th digit of x counting from the right. */
  function DigitAt(x: nat, i: nat): (r: nat)
    requires i < |Str(x)|
    ensures r == (x / Pow10(i)) % 10
  {
    DigitFromRight(x, i);
    DigitOf(Str(x)[|Str(x)| - 1 - i])
  }

  // ---------------------------------------------------------------------
  // Trailing zeros turned into nines

  /** Number of trailing zero digits of a positive number. */
  function TrailingZeros(a: nat): nat
    requires a > 0
  {
    if a % 10 != 0 then 0 else 1 + TrailingZeros(a / 10)
  }

  lemma {:induction false} TrailingZerosDivide(a: nat, k: nat)
    requires a > 0 && k <= TrailingZeros(a)
    ensures a % Pow10(k) == 0
    ensures a / Pow10(k) > 0
    ensures k < TrailingZeros(a) <==> (a / Pow10(k)) % 10 == 0
    decreases k
  {
    if k > 0 {
      var a1 := a / 10;
      assert a == 10 * a1 && a1 > 0;
      TrailingZerosDivide(a1, k - 1);
      var q := a1 / Pow10(k - 1);
      DivPow10Succ(a, k - 1);
      assert q == a / Pow10(k);
      TimesPow10(a1, q, k - 1);
      DivModUnique(a, Pow10(k), q, 0);
    }
  }

  /** If x == q * 10^k then 10 * x == q * 10^(k + 1). */
  lemma {:induction false} TimesPow10(x: nat, q: nat, k: nat)
    requires x % Pow10(k) == 0 && q == x / Pow10(k)
    ensures 10 * x == q * Pow10(k + 1)
  {
    assert x == q * Pow10(k);
    assert Pow10(k + 1) == 10 * Pow10(k);
  }

  lemma {:induction false} TrailingZerosFit(a: nat)
    requires a > 0
    ensures TrailingZeros(a) < |Str(a)|
  {
    var t := TrailingZeros(a);
    if t > 0 {
      TrailingZerosDivide(a, t);
      var q := a / Pow10(t);
      assert a == q * Pow10(t);
      MulAtLeast(q, Pow10(t));
      StrLongerThan(a, t);
    }
  }

  /**
   * What `sequence_of_nines_instead_of_zeros(a)` yields: one number per
   * trailing zero of a, the k-th having its k + 1 lowest digits set to 9.
   */
  function NinesSequence(a: nat): (r: seq<nat>)
    requires a > 0
    ensures |r| == TrailingZeros(a)
  {
    seq(TrailingZeros(a), k requires 0 <= k => a + Pow10(k + 1) - 1)
  }

  /**
   * The generator, drained into a sequence.  The source's generator never
   * ends for a == 0 (0 % 10 == 0 forever); its only caller guards that case.
   */
  method SequenceOfNinesInsteadOfZeros(a: nat) returns (out: seq<nat>)
    requires a > 0
    ensures out == NinesSequence(a)
  {
    out := [];
    var replaced := a;
    var nine := 9;
    var x := a;
    while x % 10 == 0
      invariant x > 0 && x == a / Pow10(|out|)
      invariant TrailingZeros(a) == |out| + TrailingZeros(x)
      invariant replaced == a + Pow10(|out|) - 1
      invariant nine == 9 * Pow10(|out|)
      invariant forall k :: 0 <= k < |out| ==> out[k] == a + Pow10(k + 1) - 1
      decreases x
    {
      replaced := replaced + nine;
      out := out + [replaced];
      DivPow10Succ(a, |out| - 1);
      x := x / 10;
      nine := nine * 10;
    }
  }

  /**
   * How many nines `replace_all_zero_digits_staying_smaller_than_b` keeps,
   * counting on from k: it stops at the first candidate above b or when the
   * trailing zeros run out.
   */
  function KeptNines(a: nat, b: nat, k: nat): (r: nat)
    requires a > 0 && k <= TrailingZeros(a)
    ensures k <= r <= TrailingZeros(a)
    ensures r == TrailingZeros(a) || a + Pow10(r + 1) - 1 > b
    ensures a + Pow10(k) - 1 <= b ==> a + Pow10(r) - 1 <= b
    decreases TrailingZeros(a) - k
  {
    if k < TrailingZeros(a) && a + Pow10(k + 1) - 1 <= b then KeptNines(a, b, k + 1) else k
  }

  /** Result of `replace_all_zero_digits_staying_smaller_than_b(a, b)`. */
  function ReplaceAllZeroDigits(a: nat, b: nat): (nat, nat)
  {
    if a == 0 then (0, 0)
    else var k := KeptNines(a, b, 0); (k, a + Pow10(k) - 1)
  }

  method ReplaceAllZeroDigitsStayingSmallerThanB(a: nat, b: nat) returns (index: nat, replacedA: nat)
    ensures (index, replacedA) == ReplaceAllZeroDigits(a, b)
  {
    if a == 0 {
      return 0, a;
    }
    var nines := SequenceOfNinesInsteadOfZeros(a);
    index, replacedA := 0, a;
    while index < |nines|
      invariant index <= |nines|
      invariant replacedA == a + Pow10(index) - 1
      invariant KeptNines(a, b, 0) == KeptNines(a, b, index)
    {
      if nines[index] <= b {
        replacedA := nines[index];
        index := index + 1;
      } else {
        break;
      }
    }
  }

  /**
   * The meaning of the zero-replacement step: from a <= b it reaches
   * a' = a + 10^k - 1 <= b by turning the k lowest (zero) digits into nines,
   * and turning one more zero into a nine would exceed b or is impossible.
   */
  lemma {:induction false} ReplaceAllZeroDigitsMeaning(a: nat, b: nat)
    requires a <= b
    ensures var (k, a') := ReplaceAllZeroDigits(a, b);
      a' == a + Pow10(k) - 1 && a' <= b && a % Pow10(k) == 0
      && (a == 0 ==> k == 0)
      && (a > 0 ==> k <= TrailingZeros(a)
                    && (k == TrailingZeros(a) || a + Pow10(k + 1) - 1 > b))
  {
    if a > 0 {
      var k := KeptNines(a, b, 0);
      TrailingZerosDivide(a, k);
    }
  }

  // ---------------------------------------------------------------------
  // The largest single range starting at a

  /** `_try_replace` as written: keeps the candidate when it is at most b. */
  function TryReplaceAsWritten(a: nat, b: nat, index: nat, digit: nat): (r: Option<nat>)
    ensures r.Some? <==> ReplaceWith(a, index, digit) <= b
    ensures r.Some? ==> r.value == ReplaceWith(a, index, digit)
  {
    var replaced := ReplaceWith(a, index, digit);
    if replaced <= b then Some(replaced) else None
  }

  /** `_try_replace` corrected: the candidate must also not fall below a. */
  function TryReplace(a: nat, b: nat, index: nat, digit: nat): (r: Option<nat>)
    ensures r.Some? <==> a <= ReplaceWith(a, index, digit) <= b
    ensures r.Some? ==> r.value == ReplaceWith(a, index, digit)
  {
    var replaced := ReplaceWith(a, index, digit);
    if a <= replaced <= b then Some(replaced) else None
  }

  /** Python's `x or y` where x is an optional number: None and 0 are falsy. */
  function OrElse(x: Option<nat>, y: nat): (r: nat)
    ensures x.Some? && x.value != 0 ==> r == x.value
    ensures !(x.Some? && x.value != 0) ==> r == y
  {
    if x.Some? && x.value != 0 then x.value else y
  }

  /** The digit tried second at position `index`. */
  function FallbackDigit(b: nat, index: nat): (d: nat)
    requires index < |Str(b)|
    ensures 1 <= d <= 9 || (index == 0 && d == b % 10)
    ensures d < 10
  {
    if index == 0 then Min(9, DigitAt(b, 0)) else Max(1, DigitAt(b, index) - 1)
  }

  function Min(x: int, y: int): (r: int)
    ensures r <= x && r <= y && (r == x || r == y)
  {
    if x <= y then x else y
  }

  function Max(x: int, y: int): (r: int)
    ensures r >= x && r >= y && (r == x || r == y)
  {
    if x >= y then x else y
  }

  /** `try_to_replace_lowest_nonzero_digit` as written. */
  function TryToReplaceLowestNonzeroDigitAsWritten(a: nat, b: nat, index: nat): (r: nat)
    requires a <= b && index < |Str(b)|
    ensures r <= b
  {
    OrElse(TryReplaceAsWritten(a, b, index, 9),
      OrElse(TryReplaceAsWritten(a, b, index, FallbackDigit(b, index)), a))
  }

  /** `try_to_replace_lowest_nonzero_digit` with the corrected `_try_replace`. */
  function TryToReplaceLowestNonzeroDigit(a: nat, b: nat, index: nat): (r: nat)
    requires a <= b && index < |Str(b)|
    ensures a <= r <= b
  {
    OrElse(TryReplace(a, b, index, 9),
      OrElse(TryReplace(a, b, index, FallbackDigit(b, index)), a))
  }

  lemma {:induction false} ZeroReplacementIndexFits(a: nat, b: nat)
    requires a <= b
    ensures ReplaceAllZeroDigits(a, b).0 < |Str(b)|
    ensures ReplaceAllZeroDigits(a, b).1 <= b
  {
    ReplaceAllZeroDigitsMeaning(a, b);
    if a > 0 {
      TrailingZerosFit(a);
      StrCanonical(a);
      StrCanonical(b);
      var la, lb := |Str(a)|, |Str(b)|;
      if la > lb {
        Pow10Monotone(lb, la - 1);
      }
    }
  }

  /** `max_single_range_below` as written. */
  function MaxSingleRangeBelowAsWritten(a: nat, b: nat): (r: nat)
    requires a <= b
    ensures r <= b
  {
    ZeroReplacementIndexFits(a, b);
    var (index, a') := ReplaceAllZeroDigits(a, b);
    TryToReplaceLowestNonzeroDigitAsWritten(a', b, index)
  }

  /**
   * `max_single_range_below` with the corrected `_try_replace`: the result m
   * satisfies a <= m <= b and [a, m] is a single range.
   */
  function MaxSingleRangeBelow(a: nat, b: nat): (m: nat)
    requires a <= b
    ensures a <= m <= b
  {
    ZeroReplacementIndexFits(a, b);
    var (index, a') := ReplaceAllZeroDigits(a, b);
    TryToReplaceLowestNonzeroDigit(a', b, index)
  }

  // ---------------------------------------------------------------------
  // Single ranges

  /**
   * [a, m] is a single range at digit position k: a and m agree above
   * position k, below it a has only zeros and m only nines, and a number with
   * k > 0 free low digits has a non-zero leading part.
   */
  predicate AlignedAt(a: nat, m: nat, k: nat) {
    a <= m
    && a % Pow10(k) == 0
    && m % Pow10(k) == Pow10(k) - 1
    && a / Pow10(k + 1) == m / Pow10(k + 1)
    && (k == 0 || a > 0)
  }

  /** Writing n as q * 10^i + r with r < 10^i. */
  lemma {:induction false} Decompose(n: nat, i: nat, q: nat, r: nat)
    requires r < Pow10(i) && n == q * Pow10(i) + r
    ensures n / Pow10(i) == q && n % Pow10(i) == r
    ensures n / Pow10(i + 1) == q / 10
  {
    DivModUnique(n, Pow10(i), q, r);
    DivPow10Succ(n, i);
  }

  /** The state after the zero-replacement step, in arithmetic terms. */
  lemma {:induction false} ZeroReplaced(a: nat, b: nat) returns (q: nat)
    requires a <= b
    ensures var (i, a') := ReplaceAllZeroDigits(a, b);
      a == q * Pow10(i) && a' == q * Pow10(i) + (Pow10(i) - 1) && a' <= b
      && i < |Str(a')| && i < |Str(b)| && (i == 0 || a > 0)
  {
    ReplaceAllZeroDigitsMeaning(a, b);
    ZeroReplacementIndexFits(a, b);
    var (i, a') := ReplaceAllZeroDigits(a, b);
    q := ExactQuotient(a, Pow10(i));
    Decompose(a', i, q, Pow10(i) - 1);
    StrLongerThanOrZero(a', i);
  }

  lemma {:induction false} ExactQuotient(a: nat, p: nat) returns (q: nat)
    requires p >= 1 && a % p == 0
    ensures a == q * p && q == a / p
    ensures a > 0 ==> q >= 1
  {
    q := a / p;
  }

  /** Setting digit i of a' = q * 10^i + 10^i - 1 to d: the digits above i stay. */
  lemma {:induction false} AlignedReplace(a': nat, q: nat, i: nat, d: nat)
    requires a' == q * Pow10(i) + (Pow10(i) - 1) && i < |Str(a')| && d < 10
    ensures ReplaceWith(a', i, d) == (q / 10 * 10 + d) * Pow10(i) + (Pow10(i) - 1)
  {
    var p := Pow10(i);
    ReplaceWithArith(a', i, d);
    Decompose(a', i, q, p - 1);
    ShiftDigit(q / 10, d, i);
  }

  /** Such a candidate, when not below a = q * 10^i, starts a single range at a. */
  lemma {:induction false} CandidateAligned(a: nat, a': nat, q: nat, i: nat, d: nat)
    requires a == q * Pow10(i) && a' == q * Pow10(i) + (Pow10(i) - 1)
    requires i < |Str(a')| && d < 10 && (i == 0 || a > 0)
    requires a <= ReplaceWith(a', i, d)
    ensures AlignedAt(a, ReplaceWith(a', i, d), i)
  {
    var p := Pow10(i);
    AlignedReplace(a', q, i, d);
    var h := q / 10;
    var q' := h * 10 + d;
    var m := ReplaceWith(a', i, d);
    assert m == q' * p + (p - 1);
    Decompose(m, i, q', p - 1);
    Decompose(a, i, q, 0);
    DivModUnique(q', 10, h, d);
  }

  /** Every candidate the corrected search can return starts a single range at a. */
  lemma {:induction false} MaxSingleRangeBelowAligned(a: nat, b: nat)
    requires a <= b
    ensures AlignedAt(a, MaxSingleRangeBelow(a, b), ReplaceAllZeroDigits(a, b).0)
  {
    var q := ZeroReplaced(a, b);
    var (i, a') := ReplaceAllZeroDigits(a, b);
    var m := MaxSingleRangeBelow(a, b);
    if m == a' {
      Decompose(a, i, q, 0);
      Decompose(a', i, q, Pow10(i) - 1);
    } else {
      var t9 := TryReplace(a', b, i, 9);
      var d := if t9.Some? && t9.value != 0 then 9 else FallbackDigit(b, i);
      assert m == ReplaceWith(a', i, d);
      CandidateAligned(a, a', q, i, d);
    }
  }

  /** An index at or above the length of str(n) only occurs for small n. */
  lemma {:induction false} StrLongerThanOrZero(n: nat, i: nat)
    requires n % Pow10(i) == Pow10(i) - 1
    requires i > 0 ==> n >= Pow10(i)
    ensures i < |Str(n)|
  {
    if i > 0 {
      StrLongerThan(n, i);
    }
  }

  /** The number of `\d` the loop of `single_range_to_regex` emits. */
  function LoopDepth(a: nat, b: nat): (n: nat)
    ensures a / Pow10(n + 1) == b / Pow10(n + 1)
    decreases a + b
  {
    DivPow10Succ(a, 0);
    DivPow10Succ(b, 0);
    if a / 10 == b / 10 then 0
    else
      var n := LoopDepth(a / 10, b / 10);
      DivPow10Succ(a, n + 1);
      DivPow10Succ(b, n + 1);
      assert a / Pow10(n + 2) == a / 10 / Pow10(n + 1);
      1 + n
  }

  /** A smaller number of low digits is still all zeros / all nines. */
  lemma {:induction false} ModPow10Le(x: nat, k: nat, n: nat)
    requires n <= k
    ensures x % Pow10(k) == 0 ==> x % Pow10(n) == 0
    ensures x % Pow10(k) == Pow10(k) - 1 ==> x % Pow10(n) == Pow10(n) - 1
  {
    var f := Pow10Split(k, n);
    ModFactor(x, f, Pow10(n));
  }

  /** Zero / all-nine remainders by f * p give zero / all-nine remainders by p. */
  lemma {:induction false} ModFactor(x: nat, f: nat, p: nat)
    requires f >= 1 && p >= 1
    ensures x % (f * p) == 0 ==> x % p == 0
    ensures x % (f * p) == f * p - 1 ==> x % p == p - 1
  {
    ModMod(x, f, p);
    DivModUnique(0, p, 0, 0);
    NinesMod(f, p);
  }

  /** Reducing modulo f * p and then modulo p is reducing modulo p. */
  lemma {:induction false} ModMod(x: nat, f: nat, p: nat)
    requires f >= 1 && p >= 1
    ensures x % (f * p) % p == x % p
  {
    var q, r := x / (f * p), x % (f * p);
    ModOfMultiple(x, q, f, p, r);
  }

  lemma {:induction false} Pow10Split(k: nat, n: nat) returns (f: nat)
    requires n <= k
    ensures f >= 1 && Pow10(k) == f * Pow10(n)
  {
    f := Pow10(k - n);
    Pow10Add(k - n, n);
    assert k - n + n == k;
  }

  lemma {:induction false} NinesMod(f: nat, pn: nat)
    requires f >= 1 && pn >= 1
    ensures (f * pn - 1) % pn == pn - 1
  {
    assert f * pn - 1 == (f - 1) * pn + (pn - 1);
    DivModUnique(f * pn - 1, pn, f - 1, pn - 1);
  }

  /** The remainder by pn of q * (f * pn) + r is that of r. */
  lemma {:induction false} ModOfMultiple(x: nat, q: nat, f: nat, pn: nat, r: nat)
    requires pn > 0 && x == q * (f * pn) + r
    ensures x % pn == r % pn
  {
    var q2, r2 := r / pn, r % pn;
    assert q * (f * pn) == (q * f) * pn;
    assert r == q2 * pn + r2;
    assert x == (q * f + q2) * pn + r2;
    DivModUnique(x, pn, q * f + q2, r2);
  }

  /** The loop depth is at most any position above which a and b agree. */
  lemma {:induction false} LoopDepthLeast(a: nat, b: nat, k: nat)
    requires a / Pow10(k + 1) == b / Pow10(k + 1)
    ensures LoopDepth(a, b) <= k
    decreases k
  {
    DivPow10Succ(a, 0);
    DivPow10Succ(b, 0);
    if a / 10 != b / 10 {
      assert k > 0;
      DivPow10Succ(a, k);
      DivPow10Succ(b, k);
      LoopDepthLeast(a / 10, b / 10, k - 1);
    }
  }

  // ---------------------------------------------------------------------
  // Regex atoms

  /** One character position of a single-range regex. */
  datatype Atom =
    | Lit(c: char)                  // a literal digit
    | AnyDigit                      // `\d`
    | DigitRange(lo: nat, hi: nat)  // `[lo-hi]`

  function Render(x: Atom): string {
    match x
    case Lit(c) => [c]
    case AnyDigit => "\\d"
    case DigitRange(lo, hi) => "[" + Str(lo) + "-" + Str(hi) + "]"
  }

  function RenderAll(xs: seq<Atom>): string {
    if xs == [] then "" else Render(xs[0]) + RenderAll(xs[1..])
  }

  /** The characters an atom accepts (`\d` taken as the ASCII digits). */
  predicate Accepts(x: Atom, c: char) {
    match x
    case Lit(d) => c == d
    case AnyDigit => IsDigit(c)
    case DigitRange(lo, hi) => IsDigit(c) && lo <= DigitOf(c) <= hi
  }

  /** A regex made of atoms matches w exactly (the whole of w). */
  predicate Matches(xs: seq<Atom>, w: string) {
    |w| == |xs| && forall j :: 0 <= j < |w| ==> Accepts(xs[j], w[j])
  }

  function LitAtoms(s: string): (xs: seq<Atom>)
    ensures |xs| == |s|
  {
    seq(|s|, j requires 0 <= j < |s| => Lit(s[j]))
  }

  function AnyDigits(n: nat): (xs: seq<Atom>)
    ensures |xs| == n
  {
    seq(n, _ => AnyDigit)
  }

  /** The class for digits da..db at the varying position. */
  function ClassAtom(da: nat, db: nat): Atom
    requires da < 10
  {
    if da == db then Lit(DigitChar(da))
    else if da == 0 && db == 9 then AnyDigit
    else DigitRange(da, db)
  }

  /** The digits of the common prefix; empty when it is 0. */
  function Prefix(p: nat): string {
    if p != 0 then Str(p) else ""
  }

  /**
   * The atoms of `single_range_to_regex(a, b)`: str(a) when a == b, else the
   * common prefix, the class of the first differing digit, and `\d` for each
   * digit below it.
   */
  function SingleRangeAtoms(a: nat, b: nat): seq<Atom> {
    if a == b then LitAtoms(Str(a))
    else
      var n := LoopDepth(a, b);
      var P := Pow10(n);
      DivOfNat(a, P);
      DivOfNat(b, P);
      var x: nat, y: nat := a / P, b / P;
      var da: nat, db: nat := x % 10, y % 10;
      LitAtoms(Prefix(x / 10)) + [ClassAtom(da, db)] + AnyDigits(n)
  }

  lemma {:induction false} RenderAllAppend(xs: seq<Atom>, ys: seq<Atom>)
    ensures RenderAll(xs + ys) == RenderAll(xs) + RenderAll(ys)
  {
    if xs == [] {
      assert xs + ys == ys;
    } else {
      assert (xs + ys)[1..] == xs[1..] + ys;
      RenderAllAppend(xs[1..], ys);
    }
  }

  lemma {:induction false} RenderLits(s: string)
    ensures RenderAll(LitAtoms(s)) == s
  {
    if s != [] {
      assert LitAtoms(s)[1..] == LitAtoms(s[1..]);
      RenderLits(s[1..]);
    }
  }

  lemma {:induction false} AnyDigitsSnoc(k: nat)
    ensures AnyDigits(k + 1) == AnyDigits(k) + [AnyDigit]
  {
  }

  /** One more `\\d` renders as one more "\\d". */
  lemma AnyDigitsStep(k: nat)
    ensures RenderAll(AnyDigits(k + 1)) == RenderAll(AnyDigits(k)) + "\\d"
  {
    AnyDigitsSnoc(k);
    RenderAllAppend(AnyDigits(k), [AnyDigit]);
    assert [AnyDigit][1..] == [];
  }

  /** How the class at the varying position renders. */
  lemma RenderClass(da: nat, db: nat)
    requires da < 10
    ensures RenderAll([ClassAtom(da, db)])
         == if da == db then Str(da)
            else if da == 0 && db == 9 then "\\d"
            else "[" + Str(da) + "-" + Str(db) + "]"
  {
    assert [ClassAtom(da, db)][1..] == [];
  }

  /** A shape renders piece by piece. */
  lemma RenderShape(p: nat, da: nat, db: nat, k: nat)
    requires da < 10
    ensures RenderAll(LitAtoms(Prefix(p)) + [ClassAtom(da, db)] + AnyDigits(k))
         == Prefix(p) + RenderAll([ClassAtom(da, db)]) + RenderAll(AnyDigits(k))
  {
    RenderLits(Prefix(p));
    RenderAllAppend(LitAtoms(Prefix(p)), [ClassAtom(da, db)]);
    RenderAllAppend(LitAtoms(Prefix(p)) + [ClassAtom(da, db)], AnyDigits(k));
  }

  /** Where the loop stops, the atoms are the shape at that depth. */
  lemma AtomsAtDepth(a: nat, b: nat, k: nat, x: nat, y: nat)
    requires a != b && LoopDepth(a, b) == k && x == a / Pow10(k) && y == b / Pow10(k)
    ensures SingleRangeAtoms(a, b) == LitAtoms(Prefix(x / 10)) + [ClassAtom(x % 10, y % 10)] + AnyDigits(k)
  {
  }

  /** `single_range_to_regex(a, b)`. */
  method SingleRangeToRegex(a: nat, b: nat) returns (r: string)
    ensures r == RenderAll(SingleRangeAtoms(a, b))
  {
    if a == b {
      RenderLits(Str(a));
      return Str(a);
    }
    var below := "";
    var x, y := a, b;
    ghost var k := 0;
    while x / 10 != y / 10
      invariant x == a / Pow10(k) && y == b / Pow10(k)
      invariant LoopDepth(a, b) == k + LoopDepth(x, y)
      invariant below == RenderAll(AnyDigits(k))
      decreases x + y
    {
      DivPow10Succ(a, k);
      DivPow10Succ(b, k);
      AnyDigitsStep(k);
      x, y := x / 10, y / 10;
      below := below + "\\d";
      k := k + 1;
    }
    var digitA, digitB := x % 10, y % 10;
    var characterClass: string;
    if digitA == digitB {
      characterClass := Str(digitA);
    } else if digitA == 0 && digitB == 9 {
      characterClass := "\\d";
    } else {
      characterClass := "[" + Str(digitA) + "-" + Str(digitB) + "]";
    }
    var above := if x / 10 != 0 then Str(x / 10) else "";
    r := above + characterClass + below;
    RenderClass(digitA, digitB);
    RenderShape(x / 10, digitA, digitB, k);
    AtomsAtDepth(a, b, k, x, y);
  }

  // ---------------------------------------------------------------------
  // What a single range matches

  /** w is the decimal representation of a number in [lo, hi]. */
  predicate InRange(w: string, lo: int, hi: int) {
    Canonical(w) && lo <= Value(w) <= hi
  }

  lemma {:induction false} InRangeStr(w: string, v: nat)
    ensures (Canonical(w) && Value(w) == v) <==> w == Str(v)
  {
    StrCanonical(v);
    ValueStr(v);
    if Canonical(w) && Value(w) == v {
      StrValue(w);
    }
  }

  lemma {:induction false} MatchesAppend(xs: seq<Atom>, ys: seq<Atom>, w: string)
    ensures Matches(xs + ys, w) <==>
      |w| == |xs| + |ys| && Matches(xs, w[..|xs|]) && Matches(ys, w[|xs|..])
  {
    if |w| == |xs| + |ys| {
      var zs := xs + ys;
      if Matches(xs, w[..|xs|]) && Matches(ys, w[|xs|..]) {
        forall j | 0 <= j < |w| ensures Accepts(zs[j], w[j]) {
          if j < |xs| {
            assert w[..|xs|][j] == w[j];
          } else {
            assert w[|xs|..][j - |xs|] == w[j];
          }
        }
      }
      if Matches(zs, w) {
        forall j | 0 <= j < |xs| ensures Accepts(xs[j], w[..|xs|][j]) {
          assert zs[j] == xs[j];
        }
        forall j | 0 <= j < |ys| ensures Accepts(ys[j], w[|xs|..][j]) {
          assert zs[|xs| + j] == ys[j];
        }
      }
    }
  }

  lemma {:induction false} MatchesLits(s: string, w: string)
    ensures Matches(LitAtoms(s), w) <==> w == s
  {
    if Matches(LitAtoms(s), w) {
      assert forall j :: 0 <= j < |w| ==> w[j] == s[j] by {
        forall j | 0 <= j < |w| ensures w[j] == s[j] {
          assert Accepts(LitAtoms(s)[j], w[j]);
        }
      }
    }
  }

  lemma {:induction false} MatchesAnyDigits(n: nat, t: string)
    ensures Matches(AnyDigits(n), t) <==> |t| == n && AllDigits(t)
  {
    if |t| == n && AllDigits(t) {
      forall j | 0 <= j < |t| ensures Accepts(AnyDigits(n)[j], t[j]) {
      }
    }
  }

  lemma {:induction false} MatchesClass(da: nat, db: nat, c: char)
    requires da <= db < 10
    ensures Matches([ClassAtom(da, db)], [c]) <==> IsDigit(c) && da <= DigitOf(c) <= db
  {
    var x := ClassAtom(da, db);
    assert [x][0] == x && [c][0] == c;
    assert Matches([x], [c]) <==> Accepts(x, c);
    if IsDigit(c) && c == DigitChar(da) {
      assert DigitOf(c) == da;
    }
  }

  lemma {:induction false} PrefixValue(p: nat)
    ensures AllDigits(Prefix(p)) && Value(Prefix(p)) == p
    ensures p != 0 ==> Prefix(p)[0] != '0'
  {
    if p != 0 {
      ValueStr(p);
      StrCanonical(p);
    }
  }

  /** The strings a prefix, a class and n digits match, taken apart. */
  lemma {:induction false} ShapeMatches(p: nat, da: nat, db: nat, n: nat, w: string)
    requires da <= db < 10
    ensures var u := Prefix(p);
      Matches(LitAtoms(u) + [ClassAtom(da, db)] + AnyDigits(n), w) <==>
        |w| == |u| + 1 + n && w[..|u|] == u
        && IsDigit(w[|u|]) && da <= DigitOf(w[|u|]) <= db
        && AllDigits(w[|u| + 1..])
  {
    var u := Prefix(p);
    var xs := LitAtoms(u) + [ClassAtom(da, db)];
    MatchesAppend(xs, AnyDigits(n), w);
    if |w| == |u| + 1 + n {
      var w1 := w[..|u| + 1];
      MatchesAppend(LitAtoms(u), [ClassAtom(da, db)], w1);
      assert w1[..|u|] == w[..|u|];
      assert w1[|u|..] == [w[|u|]];
      MatchesLits(u, w[..|u|]);
      MatchesClass(da, db, w[|u|]);
      MatchesAnyDigits(n, w[|u| + 1..]);
    }
  }

  /** The value of prefix, class digit c and digits t. */
  lemma {:induction false} ShapeValue(p: nat, c: char, t: string)
    requires IsDigit(c) && AllDigits(t)
    ensures AllDigits(Prefix(p) + [c] + t)
    ensures Value(Prefix(p) + [c] + t) == (p * 10 + DigitOf(c)) * Pow10(|t|) + Value(t)
  {
    PrefixValue(p);
    ValueSplice(Prefix(p), c, t);
    ShiftDigit(p, DigitOf(c), |t|);
  }

  /** Everything the shape matches is a number in [lo, hi]. */
  lemma {:induction false} ShapeSound(p: nat, da: nat, db: nat, n: nat, w: string)
    requires da <= db < 10 && (p == 0 && n > 0 ==> da >= 1)
    requires Matches(LitAtoms(Prefix(p)) + [ClassAtom(da, db)] + AnyDigits(n), w)
    ensures InRange(w, (p * 10 + da) * Pow10(n), (p * 10 + db) * Pow10(n) + Pow10(n) - 1)
  {
    ShapeMatches(p, da, db, n, w);
    var u := Prefix(p);
    var c, t := w[|u|], w[|u| + 1..];
    assert w == u + [c] + t;
    ShapeValue(p, c, t);
    ValueBound(t);
    var cv := DigitOf(c);
    MulLe(p * 10 + da, p * 10 + cv, Pow10(n));
    MulLe(p * 10 + cv, p * 10 + db, Pow10(n));
    PrefixValue(p);
    assert w[0] == '0' ==> |w| == 1 by {
      if p != 0 {
        assert w[0] == u[0];
      }
    }
  }

  /** The digits of a number in [lo, hi] at and above position n. */
  lemma {:induction false} ShapeDigits(p: nat, da: nat, db: nat, n: nat, v: nat) returns (cv: nat)
    requires da <= db < 10 && (p == 0 && n > 0 ==> da >= 1)
    requires (p * 10 + da) * Pow10(n) <= v <= (p * 10 + db) * Pow10(n) + Pow10(n) - 1
    ensures v / Pow10(n) == p * 10 + cv && da <= cv <= db
    ensures n > 0 ==> v >= Pow10(n)
  {
    var P := Pow10(n);
    var lo, hi := (p * 10 + da) * P, (p * 10 + db) * P + P - 1;
    DivModUnique(lo, P, p * 10 + da, 0);
    DivModUnique(hi, P, p * 10 + db, P - 1);
    DivMonotone(lo, v, P);
    DivMonotone(v, hi, P);
    cv := v / P - p * 10;
    if n > 0 {
      MulAtLeast(p * 10 + da, P);
    }
  }

  /** str(v), cut at the class digit. */
  lemma {:induction false} StrShape(v: nat, n: nat, p: nat, cv: nat)
    requires cv < 10 && v / Pow10(n) == p * 10 + cv && n < |Str(v)|
    ensures Str(v) == Prefix(p) + [DigitChar(cv)] + Str(v)[|Str(v)| - n..]
  {
    var x: nat := p * 10 + cv;
    StrPrefix(v, n, x);
    DivModUnique(x, 10, p, cv);
    assert Str(x) == Prefix(p) + [DigitChar(cv)];
    var s := Str(v);
    assert s == s[..|s| - n] + s[|s| - n..];
  }

  /** Every number in [lo, hi] is matched by the shape. */
  lemma {:induction false} ShapeComplete(p: nat, da: nat, db: nat, n: nat, w: string)
    requires da <= db < 10 && (p == 0 && n > 0 ==> da >= 1)
    requires InRange(w, (p * 10 + da) * Pow10(n), (p * 10 + db) * Pow10(n) + Pow10(n) - 1)
    ensures Matches(LitAtoms(Prefix(p)) + [ClassAtom(da, db)] + AnyDigits(n), w)
  {
    var v := Value(w);
    InRangeStr(w, v);
    var cv := ShapeDigits(p, da, db, n, v);
    if n > 0 {
      StrLongerThan(v, n);
    }
    StrShape(v, n, p, cv);
    var u := Prefix(p);
    var t := w[|w| - n..];
    assert w == u + [DigitChar(cv)] + t;
    assert w[..|u|] == u;
    assert w[|u|] == DigitChar(cv);
    assert w[|u| + 1..] == t;
    assert AllDigits(t);
    ShapeMatches(p, da, db, n, w);
  }

  /** The digits of an aligned range [a, m] at and above a position n <= k. */
  lemma {:induction false} AlignedDigits(a: nat, m: nat, k: nat, n: nat) returns (p: nat, da: nat, db: nat)
    requires AlignedAt(a, m, k) && n <= k
    requires a / Pow10(n + 1) == m / Pow10(n + 1)
    ensures da <= db < 10
    ensures p == a / Pow10(n) / 10 && da == a / Pow10(n) % 10 && db == m / Pow10(n) % 10
    ensures a / Pow10(n) == p * 10 + da && m / Pow10(n) == p * 10 + db
    ensures a == (p * 10 + da) * Pow10(n)
    ensures m == (p * 10 + db) * Pow10(n) + Pow10(n) - 1
    ensures p == 0 && n > 0 ==> da >= 1
  {
    ModPow10Le(a, k, n);
    ModPow10Le(m, k, n);
    DivPow10Succ(a, n);
    DivPow10Succ(m, n);
    p, da, db := QuotientDigits(a, m, Pow10(n));
  }

  /** a and m with all-zero / all-nine remainders by P and equal a / P / 10. */
  lemma {:induction false} QuotientDigits(a: nat, m: nat, P: nat) returns (p: nat, da: nat, db: nat)
    requires P >= 1 && a <= m && a % P == 0 && m % P == P - 1 && a / P / 10 == m / P / 10
    ensures da <= db < 10
    ensures p == a / P / 10 && da == a / P % 10 && db == m / P % 10
    ensures a / P == p * 10 + da && m / P == p * 10 + db
    ensures a == (p * 10 + da) * P
    ensures m == (p * 10 + db) * P + P - 1
  {
    var x, y := a / P, m / P;
    p := x / 10;
    da, db := x % 10, y % 10;
    DivMonotone(a, m, P);
  }

  /** An aligned range [a, m] with a < m, as prefix, class digits and depth. */
  lemma {:induction false} SingleRangeShape(a: nat, m: nat, k: nat) returns (p: nat, da: nat, db: nat)
    requires AlignedAt(a, m, k) && a < m
    ensures da <= db < 10
    ensures var n := LoopDepth(a, m);
      SingleRangeAtoms(a, m) == LitAtoms(Prefix(p)) + [ClassAtom(da, db)] + AnyDigits(n)
      && a == (p * 10 + da) * Pow10(n)
      && m == (p * 10 + db) * Pow10(n) + Pow10(n) - 1
      && (p == 0 && n > 0 ==> da >= 1)
  {
    var n := LoopDepth(a, m);
    LoopDepthLeast(a, m, k);
    p, da, db := AlignedDigits(a, m, k, n);
    var P := Pow10(n);
    assert SingleRangeAtoms(a, m)
        == LitAtoms(Prefix(a / P / 10)) + [ClassAtom(a / P % 10, m / P % 10)] + AnyDigits(n);
  }

  /**
   * The regex of an aligned single range [a, m] matches exactly the decimal
   * representations of the numbers from a to m.
   */
  lemma {:induction false} SingleRangeLanguage(a: nat, m: nat, k: nat, w: string)
    requires AlignedAt(a, m, k)
    ensures Matches(SingleRangeAtoms(a, m), w) <==> InRange(w, a, m)
  {
    if a == m {
      MatchesLits(Str(a), w);
      InRangeStr(w, a);
    } else {
      var n := LoopDepth(a, m);
      var p, da, db := SingleRangeShape(a, m, k);
      if Matches(SingleRangeAtoms(a, m), w) {
        ShapeSound(p, da, db, n, w);
      }
      if InRange(w, a, m) {
        ShapeComplete(p, da, db, n, w);
      }
    }
  }

  // ---------------------------------------------------------------------
  // Whole ranges

  /** `max_single_range_below(a, b)`, running the zero-replacement loop. */
  method ComputeMaxSingleRangeBelow(a: nat, b: nat) returns (m: nat)
    requires a <= b
    ensures m == MaxSingleRangeBelow(a, b)
  {
    var index, a' := ReplaceAllZeroDigitsStayingSmallerThanB(a, b);
    ZeroReplacementIndexFits(a, b);
    m := TryToReplaceLowestNonzeroDigit(a', b, index);
  }

  // ---------------------------------------------------------------------
  // The search as written

  /**
   * The arguments of the recursive call `number_range_to_regex(a, b)` makes
   * when it uses the search as written (None when it does not recurse).
   */
  function NumberRangeRecursionAsWritten(a: nat, b: nat): Option<(nat, nat)>
    requires a <= b
  {
    if a == b then None
    else
      var m := MaxSingleRangeBelowAsWritten(a, b);
      if m == b then None else Some((m + 1, b))
  }

  /**
   * On [20, 29] the search as written returns 19, below a, so
   * `number_range_to_regex(20, 29)` calls itself with the same arguments.
   */
  lemma {:induction false} NumberRangeAsWrittenDoesNotTerminate()
    ensures MaxSingleRangeBelowAsWritten(20, 29) == 19
    ensures NumberRangeRecursionAsWritten(20, 29) == Some((20, 29))
  {
    assert TrailingZeros(20) == 1 by {
      assert TrailingZeros(2) == 0;
    }
    assert KeptNines(20, 29, 1) == 1;
    assert KeptNines(20, 29, 0) == 1;
    assert ReplaceAllZeroDigits(20, 29) == (1, 29);
    assert Str(29) == "29" by {
      assert Str(2) == "2";
    }
    assert Pow10(2) == 100 && Pow10(1) == 10;
    ReplaceWithArith(29, 1, 9);
    assert ReplaceWith(29, 1, 9) == 99;
    assert DigitAt(29, 1) == 2;
    assert FallbackDigit(29, 1) == 1;
    ReplaceWithArith(29, 1, 1);
    assert ReplaceWith(29, 1, 1) == 19;
  }

  /**
   * The search as written and the corrected one differ only where the
   * written one returns a number below a.
   */
  lemma {:induction false} MaxSingleRangeBelowAsWrittenUndershoots(a: nat, b: nat)
    requires a <= b
    ensures MaxSingleRangeBelowAsWritten(a, b) == MaxSingleRangeBelow(a, b)
         || MaxSingleRangeBelowAsWritten(a, b) < a
  {
    var q := ZeroReplaced(a, b);
    var (i, a') := ReplaceAllZeroDigits(a, b);
    ZeroReplacementIndexFits(a, b);
    NineNotBelow(a', q, i);
    FallbackBelow(a, a', q, i, FallbackDigit(b, i));
    TryToReplaceAsWrittenUndershoots(a, a', b, i);
  }

  /** With nines below position i, putting a 9 at position i cannot go down. */
  lemma {:induction false} NineNotBelow(a': nat, q: nat, i: nat)
    requires a' == q * Pow10(i) + (Pow10(i) - 1) && i < |Str(a')|
    ensures a' <= ReplaceWith(a', i, 9)
  {
    AlignedReplace(a', q, i, 9);
    assert q == q / 10 * 10 + q % 10;
    MulLe(q, q / 10 * 10 + 9, Pow10(i));
  }

  /** A candidate below a' (digit i lowered) is below a = q * 10^i as well. */
  lemma {:induction false} FallbackBelow(a: nat, a': nat, q: nat, i: nat, d: nat)
    requires a == q * Pow10(i) && a' == q * Pow10(i) + (Pow10(i) - 1)
    requires i < |Str(a')| && d < 10
    ensures ReplaceWith(a', i, d) < a' ==> ReplaceWith(a', i, d) < a
  {
    AlignedReplace(a', q, i, d);
    LowerDigitBelow(q / 10 * 10 + d, q, Pow10(i));
  }

  lemma {:induction false} LowerDigitBelow(x: nat, q: nat, p: nat)
    requires p >= 1
    ensures x * p + (p - 1) < q * p + (p - 1) ==> x * p + (p - 1) < q * p
  {
    if x * p < q * p {
      MulLtCancel(x, q, p);
      MulLe(x + 1, q, p);
    }
  }

  /**
   * The digit search as written and corrected agree, except where the written
   * one accepts the fallback candidate although it lies below a.
   */
  lemma {:induction false} TryToReplaceAsWrittenUndershoots(a: nat, a': nat, b: nat, i: nat)
    requires a <= a' <= b && i < |Str(b)|
    requires a' <= ReplaceWith(a', i, 9)
    requires ReplaceWith(a', i, FallbackDigit(b, i)) < a' ==> ReplaceWith(a', i, FallbackDigit(b, i)) < a
    ensures var w := TryToReplaceLowestNonzeroDigitAsWritten(a', b, i);
      w == TryToReplaceLowestNonzeroDigit(a', b, i) || w < a
  {
    var x9 := ReplaceWith(a', i, 9);
    var fd := FallbackDigit(b, i);
    var xf := ReplaceWith(a', i, fd);
    if !(x9 <= b && x9 != 0) {
      assert TryToReplaceLowestNonzeroDigit(a', b, i) == OrElse(TryReplace(a', b, i, fd), a');
      assert TryToReplaceLowestNonzeroDigitAsWritten(a', b, i) == OrElse(TryReplaceAsWritten(a', b, i, fd), a');
    }
  }
}
