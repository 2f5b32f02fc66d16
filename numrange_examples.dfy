/**
 * The regex texts that ke/numrange.py asserts for particular ranges,
 * derived from the model of `single_range_to_regex` and
 * `number_range_to_regex`.
 */
module NumRangeExamples {
  import opened Decimal
  import opened NumRange
  import opened NumRangeRegex

  /** Where the loop stops at depth k, the regex is prefix, class and k `\d`. */
  lemma {:induction false} RenderAtDepth(a: nat, b: nat, k: nat, x: nat, y: nat, prefix: string, cls: string)
    requires a != b && LoopDepth(a, b) == k && x == a / Pow10(k) && y == b / Pow10(k)
    requires Prefix(x / 10) == prefix
    requires RenderAll([ClassAtom(x % 10, y % 10)]) == cls
    ensures RenderAll(SingleRangeAtoms(a, b)) == prefix + cls + RenderAll(AnyDigits(k))
  {
    AtomsAtDepth(a, b, k, x, y);
    RenderShape(x / 10, x % 10, y % 10, k);
  }

  lemma {:induction false} TwoDigits()
    ensures RenderAll(AnyDigits(1)) == "\\d"
    ensures RenderAll(AnyDigits(2)) == "\\d\\d"
  {
    AnyDigitsStep(0);
    AnyDigitsStep(1);
  }

  lemma {:induction false} DepthTwo()
    ensures Pow10(2) == 100
    ensures LoopDepth(12000, 12599) == 2
  {
    DepthOne(1200, 1259);
  }

  lemma {:induction false} ClassZeroFive()
    ensures RenderAll([ClassAtom(0, 5)]) == "[0-5]"
  {
    RenderClass(0, 5);
  }

  lemma {:induction false} ClassZeroFour()
    ensures RenderAll([ClassAtom(0, 4)]) == "[0-4]"
  {
    RenderClass(0, 4);
  }

  lemma {:induction false} ClassOneNine()
    ensures RenderAll([ClassAtom(1, 9)]) == "[1-9]"
  {
    RenderClass(1, 9);
  }

  /** The loop of `single_range_to_regex` runs once when a and b differ only in their last two digits. */
  lemma {:induction false} DepthOne(a: nat, b: nat)
    requires a / 10 != b / 10 && a / 10 / 10 == b / 10 / 10
    ensures LoopDepth(a, b) == 1
  {
    assert LoopDepth(a / 10, b / 10) == 0;
  }

  /** `single_range_to_regex(12000, 12599) == r"12[0-5]\d\d"`, asserted at ke/numrange.py:189. */
  lemma SingleRangeExample()
    ensures RenderAll(SingleRangeAtoms(12000, 12599)) == "12[0-5]\\d\\d"
  {
    TwoDigits();
    DepthTwo();
    assert Prefix(12) == "12";
    ClassZeroFive();
    RenderAtDepth(12000, 12599, 2, 120, 125, "12", "[0-5]");
  }

  // ---------------------------------------------------------------------
  // number_range_to_regex(0, 255)

  lemma {:induction false} MaxBelowFrom0()
    ensures MaxSingleRangeBelow(0, 255) == 9
  {
    ReplaceWithArith(0, 0, 9);
  }

  lemma {:induction false} MaxBelowFrom10()
    ensures MaxSingleRangeBelow(10, 255) == 99
  {
    assert TrailingZeros(10) == 1;
    assert KeptNines(10, 255, 0) == 1;
    StrLongerThan(19, 1);
    ReplaceWithArith(19, 1, 9);
  }

  lemma {:induction false} MaxBelowFrom100()
    ensures MaxSingleRangeBelow(100, 255) == 199
  {
    assert TrailingZeros(100) == 2;
    assert KeptNines(100, 255, 0) == 2;
    StrLongerThan(199, 2);
    StrLongerThan(255, 2);
    ReplaceWithArith(199, 2, 9);
    assert DigitAt(255, 2) == 2;
    ReplaceWithArith(199, 2, 1);
  }

  lemma {:induction false} MaxBelowFrom200()
    ensures MaxSingleRangeBelow(200, 255) == 249
  {
    assert TrailingZeros(200) == 2;
    assert KeptNines(200, 255, 0) == 1;
    StrLongerThan(209, 2);
    StrLongerThan(255, 2);
    ReplaceWithArith(209, 1, 9);
    assert DigitAt(255, 1) == 5;
    ReplaceWithArith(209, 1, 4);
  }

  lemma {:induction false} MaxBelowFrom250()
    ensures MaxSingleRangeBelow(250, 255) == 255
  {
    assert TrailingZeros(250) == 1;
    assert KeptNines(250, 255, 0) == 0;
    StrLongerThan(255, 2);
    ReplaceWithArith(250, 0, 9);
    assert DigitAt(255, 0) == 5;
    ReplaceWithArith(250, 0, 5);
  }

  lemma {:induction false} RangesStep(a: nat, m: nat, b: nat)
    requires a < b && MaxSingleRangeBelow(a, b) == m < b
    ensures Ranges(a, b) == [(a, m)] + Ranges(m + 1, b)
  {
    assert Ranges(a, b) == RangesAfterFirst(a, b);
    assert RangesAfterFirst(a, b) == RangesFrom(a, m, b);
  }

  lemma {:induction false} RangesLast(a: nat, b: nat)
    requires a < b && MaxSingleRangeBelow(a, b) == b
    ensures Ranges(a, b) == [(a, b)]
  {
    assert Ranges(a, b) == RangesAfterFirst(a, b);
    assert RangesAfterFirst(a, b) == RangesFrom(a, b, b);
  }

  /** When the search from a stops at m < b, the regex is the range [a, m], a bar and the rest. */
  lemma {:induction false} TextStep(a: nat, m: nat, b: nat, first: string, rest: string)
    requires a < b && MaxSingleRangeBelow(a, b) == m < b
    requires RenderAll(SingleRangeAtoms(a, m)) == first
    requires JoinAlternatives(Alternatives(Ranges(m + 1, b))) == rest
    ensures JoinAlternatives(Alternatives(Ranges(a, b))) == first + "|" + rest
  {
    RangesStep(a, m, b);
    JoinCons(a, m, first, rest, Ranges(m + 1, b));
  }

  /** When the search from a reaches b, the regex is the single range [a, b]. */
  lemma {:induction false} TextLast(a: nat, b: nat, text: string)
    requires a < b && MaxSingleRangeBelow(a, b) == b
    requires RenderAll(SingleRangeAtoms(a, b)) == text
    ensures JoinAlternatives(Alternatives(Ranges(a, b))) == text
  {
    RangesLast(a, b);
    JoinSingle(a, b);
  }

  lemma {:induction false} RenderFrom0()
    ensures RenderAll(SingleRangeAtoms(0, 9)) == "\\d"
  {
    assert LoopDepth(0, 9) == 0;
    assert Prefix(0) == "";
    RenderClass(0, 9);
    assert RenderAll(AnyDigits(0)) == "";
    RenderAtDepth(0, 9, 0, 0, 9, "", "\\d");
  }

  lemma {:induction false} RenderFrom10()
    ensures RenderAll(SingleRangeAtoms(10, 99)) == "[1-9]\\d"
  {
    DepthOne(10, 99);
    assert Prefix(0) == "";
    ClassOneNine();
    TwoDigits();
    RenderAtDepth(10, 99, 1, 1, 9, "", "[1-9]");
  }

  lemma {:induction false} RenderFrom100()
    ensures RenderAll(SingleRangeAtoms(100, 199)) == "1\\d\\d"
  {
    DepthOne(100, 199);
    assert Prefix(1) == "1";
    RenderClass(0, 9);
    TwoDigits();
    RenderAtDepth(100, 199, 1, 10, 19, "1", "\\d");
  }

  lemma {:induction false} RenderFrom200()
    ensures RenderAll(SingleRangeAtoms(200, 249)) == "2[0-4]\\d"
  {
    DepthOne(200, 249);
    assert Prefix(2) == "2";
    ClassZeroFour();
    TwoDigits();
    RenderAtDepth(200, 249, 1, 20, 24, "2", "[0-4]");
  }

  lemma {:induction false} RenderFrom250()
    ensures RenderAll(SingleRangeAtoms(250, 255)) == "25[0-5]"
  {
    assert LoopDepth(250, 255) == 0;
    assert Prefix(25) == "25";
    ClassZeroFive();
    assert RenderAll(AnyDigits(0)) == "";
    RenderAtDepth(250, 255, 0, 250, 255, "25", "[0-5]");
  }

  lemma {:induction false} TextFrom250()
    ensures JoinAlternatives(Alternatives(Ranges(250, 255))) == "25[0-5]"
  {
    MaxBelowFrom250();
    RenderFrom250();
    TextLast(250, 255, "25[0-5]");
  }

  lemma Joined200()
    ensures "2[0-4]\\d" + "|" + "25[0-5]" == "2[0-4]\\d|25[0-5]"
  {
  }

  lemma {:induction false} TextFrom200()
    ensures JoinAlternatives(Alternatives(Ranges(200, 255))) == "2[0-4]\\d|25[0-5]"
  {
    MaxBelowFrom200();
    RenderFrom200();
    TextFrom250();
    TextStep(200, 249, 255, "2[0-4]\\d", "25[0-5]");
    Joined200();
  }

  lemma Joined100()
    ensures "1\\d\\d" + "|" + "2[0-4]\\d|25[0-5]" == "1\\d\\d|2[0-4]\\d|25[0-5]"
  {
  }

  lemma {:induction false} TextFrom100()
    ensures JoinAlternatives(Alternatives(Ranges(100, 255))) == "1\\d\\d|2[0-4]\\d|25[0-5]"
  {
    MaxBelowFrom100();
    RenderFrom100();
    TextFrom200();
    TextStep(100, 199, 255, "1\\d\\d", "2[0-4]\\d|25[0-5]");
    Joined100();
  }

  lemma Joined10()
    ensures "[1-9]\\d" + "|" + "1\\d\\d|2[0-4]\\d|25[0-5]" == "[1-9]\\d|1\\d\\d|2[0-4]\\d|25[0-5]"
  {
  }

  lemma {:induction false} TextFrom10()
    ensures JoinAlternatives(Alternatives(Ranges(10, 255))) == "[1-9]\\d|1\\d\\d|2[0-4]\\d|25[0-5]"
  {
    MaxBelowFrom10();
    RenderFrom10();
    TextFrom100();
    TextStep(10, 99, 255, "[1-9]\\d", "1\\d\\d|2[0-4]\\d|25[0-5]");
    Joined10();
  }

  lemma Joined0()
    ensures "\\d" + "|" + "[1-9]\\d|1\\d\\d|2[0-4]\\d|25[0-5]" == "\\d|[1-9]\\d|1\\d\\d|2[0-4]\\d|25[0-5]"
  {
  }

  /**
   * `number_range_to_regex(0, 255) == r"\d|[1-9]\d|1\d\d|2[0-4]\d|25[0-5]"`,
   * asserted at ke/numrange.py:219.
   */
  lemma {:induction false} NumberRangeExample()
    ensures JoinAlternatives(Alternatives(Ranges(0, 255))) == "\\d|[1-9]\\d|1\\d\\d|2[0-4]\\d|25[0-5]"
  {
    MaxBelowFrom0();
    RenderFrom0();
    TextFrom10();
    TextStep(0, 9, 255, "\\d", "[1-9]\\d|1\\d\\d|2[0-4]\\d|25[0-5]");
    Joined0();
  }
}
