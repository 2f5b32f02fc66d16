/**
 * What the kleenexp compiler (ke/compiler.py) promises, stated over the
 * functional model in KeCompiler: repetition names, ranges, inversion,
 * separated repetition, dropping empty items, alternation and the scoping
 * of macro definitions.
 */
module CompilerFacts {
  import opened Errors
  import opened Decimal
  import A = Asm
  import P = KeParser
  import opened KeCompiler

  // -----------------------------------------------------------------------
  // Repeat operators

  lemma NoDashInDigits(s: string)
    requires AllDigits(s)
    ensures A.Find(s, '-') == |s|
  {
    forall j | 0 <= j < |s| ensures s[j] != '-' {
      assert IsDigit(s[j]);
    }
  }

  lemma AtLeastName(min: nat)
    ensures RepeatCore(Str(min) + "+") == Some((min, None))
  {
    var lo := Str(min);
    ValueStr(min);
    var s := lo + "+";
    assert s[..|s| - 1] == lo;
    forall j | 0 <= j < |s| ensures s[j] != '-' {
      if j < |lo| {
        assert s[j] == lo[j] && IsDigit(lo[j]);
      }
    }
  }

  lemma ExactlyName(min: nat)
    ensures RepeatCore(Str(min)) == Some((min, Some(min)))
  {
    ValueStr(min);
    NoDashInDigits(Str(min));
    assert IsDigit(Str(min)[|Str(min)| - 1]);
  }

  lemma BetweenName(min: nat, max: nat)
    ensures RepeatCore(Str(min) + "-" + Str(max)) == Some((min, Some(max)))
  {
    var lo, hi := Str(min), Str(max);
    ValueStr(min);
    ValueStr(max);
    var s := lo + "-" + hi;
    assert s[|lo|] == '-';
    forall j | 0 <= j < |lo| ensures s[j] != '-' {
      assert s[j] == lo[j] && IsDigit(lo[j]);
    }
    assert A.Find(s, '-') == |lo|;
    assert s[..|lo|] == lo && s[|lo| + 1..] == hi;
  }

  /** The operator name `N`, `N+` or `N-M` is read back as the bounds it was
      written for. */
  lemma RepeatNameRoundTrip(min: nat, max: Option<nat>)
    ensures RepeatBounds(RepeatName(min, max)) == Some((min, max))
  {
    if max.None? {
      AtLeastName(min);
    } else if max.value == min {
      ExactlyName(min);
    } else {
      BetweenName(min, max.value);
    }
  }

  /** A repeat operator over a non-empty body is a greedy repetition with
      the bounds its name spells. */
  lemma RepeatOperator(min: nat, max: Option<nat>, name: Option<string>, sub: A.Node)
    requires IsNotEmpty(sub)
    ensures OperatorOf(RepeatName(min, max), name, sub) == Ok(A.Multiple(min, max, true, sub))
  {
    RepeatNameRoundTrip(min, max);
  }

  /** Every operator other than `separate` refuses an empty body. */
  lemma EmptyBodyRefused(opName: string, name: Option<string>, sub: A.Node)
    requires !IsNotEmpty(sub) && opName != "separate"
    ensures OperatorOf(opName, name, sub).Err? && OperatorOf(opName, name, sub).kind == CompileError
  {
  }

  // -----------------------------------------------------------------------
  // Ranges

  /** A range compiles exactly when both ends are letters of one case or
      digits and the start does not come after the end; the class it gives
      matches exactly the characters between the ends. */
  lemma CompileRangeSpec(start: char, end: char)
    ensures CompileRange(start, end).Ok? <==>
      CharacterCategory(start).Ok? && CharacterCategory(start) == CharacterCategory(end) && start <= end
    ensures CharacterCategory(start).Err? ==> CompileRange(start, end) == Err(AssertionError, "Unknown character class: " + [start])
    ensures CharacterCategory(start).Ok? && CharacterCategory(end).Err? ==>
      CompileRange(start, end) == Err(AssertionError, "Unknown character class: " + [end])
    ensures CompileRange(start, end).Ok? ==>
      var n := CompileRange(start, end).value;
      n.CharacterClass? && !n.inverted && forall c :: A.ClassAccepts(n, c) <==> start <= c <= end
  {
    var r := CompileRange(start, end);
    if r.Ok? {
      var n := r.value;
      forall c ensures A.ClassAccepts(n, c) <==> start <= c <= end {
        assert A.ItemAccepts(n.items[0], c) <==> start <= c <= end;
        if start <= c <= end {
          assert A.SomeItemAccepts(n.items, c);
        }
      }
    }
  }

  // -----------------------------------------------------------------------
  // Inversion

  /** `not` succeeds exactly on an unnamed one-character literal, a class or
      a boundary that has a reverse. */
  lemma InvertOperatorDefined(name: Option<string>, n: A.Node)
    ensures InvertOperator(name, n).Ok? <==>
      name.None? && ((n.Literal? && |n.s| == 1) || n.CharacterClass? || (n.Boundary? && n.reverse.Some?))
    ensures name.Some? ==> InvertOperator(name, n).Err? && InvertOperator(name, n).kind == CompileError
  {
  }

  /** The inverse of a one-character literal matches every other character. */
  lemma InvertSingleCharacter(c: char)
    ensures InvertOperator(None, A.Literal([c])).Ok?
    ensures var n := InvertOperator(None, A.Literal([c])).value;
      n.CharacterClass? && forall d :: A.ClassAccepts(n, d) <==> d != c
  {
    var n := InvertOperator(None, A.Literal([c])).value;
    forall d ensures A.ClassAccepts(n, d) <==> d != c {
      assert A.ItemAccepts(n.items[0], d) <==> d == c;
      if d == c {
        assert A.SomeItemAccepts(n.items, d);
      }
    }
  }

  /** The inverse of a class matches exactly what the class does not. */
  lemma InvertOperatorComplement(n: A.Node, c: char)
    requires n.CharacterClass?
    ensures InvertOperator(None, n).Ok? && InvertOperator(None, n).value.CharacterClass?
    ensures A.ClassAccepts(InvertOperator(None, n).value, c) <==> !A.ClassAccepts(n, c)
  {
  }

  /** Inverting twice gives back the class or the boundary. */
  lemma InvertOperatorInvolution(n: A.Node)
    requires n.CharacterClass? || (n.Boundary? && n.reverse.Some?)
    ensures InvertOperator(None, n).Ok?
    ensures InvertOperator(None, InvertOperator(None, n).value) == Ok(n)
  {
  }

  // -----------------------------------------------------------------------
  // Separated repetition

  /** With a body that cannot match the empty string, the separated
      repetition can match the empty string exactly when the repetition it
      replaces can, that is when its minimum is zero. */
  lemma SeparateNullable(sep: string, min: nat, max: Option<nat>, greedy: bool, sub: A.Node)
    requires !A.Nullable(sub) && (max.None? || min <= max.value) && max != Some(0)
    ensures Separate(Some(sep), A.Multiple(min, max, greedy, sub)).Ok?
    ensures A.Nullable(Separate(Some(sep), A.Multiple(min, max, greedy, sub)).value) <==>
      A.Nullable(A.Multiple(min, max, greedy, sub))
    ensures A.Nullable(A.Multiple(min, max, greedy, sub)) <==> min == 0
  {
    var r := Separate(Some(sep), A.Multiple(min, max, greedy, sub)).value;
    if min == 0 && max != Some(1) {
      assert r == A.Either([r.subs[0], EMPTY]);
      assert A.Nullable(r.subs[1]);
    } else if min > 0 {
      assert r.Concat? && r.subs[0] == sub;
    }
  }

  /** Separated repetition as written: a minimum of one is made optional. */
  lemma SeparateAsWrittenNullable(sep: string, max: Option<nat>, greedy: bool, sub: A.Node)
    requires max.None? || max.value >= 2
    ensures !A.Nullable(sub) ==> !A.Nullable(A.Multiple(1, max, greedy, sub))
    ensures SeparateAsWritten(Some(sep), A.Multiple(1, max, greedy, sub)).Ok?
    ensures A.Nullable(SeparateAsWritten(Some(sep), A.Multiple(1, max, greedy, sub)).value)
  {
    var r := SeparateAsWritten(Some(sep), A.Multiple(1, max, greedy, sub)).value;
    assert r == A.Either([r.subs[0], EMPTY]);
    assert A.Nullable(r.subs[1]);
  }

  /** `[sep:, 1+ 'a']`: separate applied to the compiled `1+ 'a'`. As
      written it also matches the empty string; corrected, it does not. */
  lemma SeparateAsWrittenExample()
    ensures var expr := A.Multiple(1, None, true, A.Literal("a"));
      !A.Nullable(expr) &&
      SeparateAsWritten(Some(","), expr).Ok? && A.Nullable(SeparateAsWritten(Some(","), expr).value) &&
      Separate(Some(","), expr).Ok? && !A.Nullable(Separate(Some(","), expr).value)
  {
    SeparateAsWrittenNullable(",", None, true, A.Literal("a"));
    SeparateNullable(",", 1, None, true, A.Literal("a"));
  }

  /** Bounds in the wrong order give back an error object, which cannot be
      rendered. */
  lemma SeparateBadBounds(sep: string, min: nat, max: nat, greedy: bool, sub: A.Node, syntax: string)
    requires min > max
    ensures Separate(Some(sep), A.Multiple(min, Some(max), greedy, sub)).Ok?
    ensures var n := Separate(Some(sep), A.Multiple(min, Some(max), greedy, sub)).value;
      n.ErrorValue? && A.ToRegex(n, syntax, false).Err?
  {
  }

  // -----------------------------------------------------------------------
  // Dropping empty items

  lemma {:induction false} SurvivorsSpec(c: seq<A.Node>)
    ensures |Survivors(c)| == CountNonEmpty(c)
    ensures forall x :: x in Survivors(c) <==> x in c && IsNotEmpty(x)
    decreases |c|
  {
    if c != [] {
      var init := c[..|c| - 1];
      SurvivorsSpec(init);
      assert c == init + [c[|c| - 1]];
    }
  }

  /** Two non-empty branches of a sequence with only one are the same. */
  lemma CountNonEmptyUnique(c: seq<A.Node>, i: nat, j: nat)
    requires i < j < |c| && IsNotEmpty(c[i]) && IsNotEmpty(c[j])
    ensures CountNonEmpty(c) >= 2
  {
    CountNonEmptySnoc(c, i);
    PrefixOfPrefix(c, j, i + 1);
    CountNonEmptyPrefix(c[..j], i + 1);
    CountNonEmptySnoc(c, j);
    CountNonEmptyPrefix(c, j + 1);
  }

  /** The one non-empty item is the first one. */
  lemma FirstNonEmptyUnique(c: seq<A.Node>, i: nat)
    requires CountNonEmpty(c) == 1 && i < |c| && IsNotEmpty(c[i])
    ensures FirstNonEmpty(c) == i
  {
    var f := FirstNonEmpty(c);
    if f < i {
      CountNonEmptyUnique(c, f, i);
    } else if i < f {
      CountNonEmptyUnique(c, i, f);
    }
  }

  /** No non-empty item gives the empty literal, one gives that item and
      more give their concatenation. */
  lemma ConcatOfSurvivors(c: seq<A.Node>)
    ensures CountNonEmpty(c) == 0 ==> ConcatOf(Survivors(c)) == EMPTY
    ensures CountNonEmpty(c) == 1 ==> ConcatOf(Survivors(c)) == c[FirstNonEmpty(c)]
    ensures CountNonEmpty(c) >= 2 ==> ConcatOf(Survivors(c)) == A.Concat(Survivors(c))
    ensures ConcatOf(Survivors(c)) == EMPTY <==> CountNonEmpty(c) == 0
  {
    SurvivorsSpec(c);
    var s := Survivors(c);
    if CountNonEmpty(c) == 1 {
      assert s[0] in s;
      var j :| 0 <= j < |c| && c[j] == s[0];
      FirstNonEmptyUnique(c, j);
    }
  }

  /** Items that are nothing or comments. */
  predicate Silent(item: P.Ast) {
    item.Nothing? || (item.Operator? && item.opName == "comment")
  }

  lemma {:induction false} SilentItems(items: seq<P.Ast>, env: Env)
    requires forall i :: 0 <= i < |items| ==> Silent(items[i])
    ensures DefineAll(items, env) == Ok(env)
    ensures CompileRegexes(items, env).Ok?
    ensures forall x :: x in CompileRegexes(items, env).value ==> x == EMPTY
    decreases |items|
  {
    if items != [] {
      SilentItems(items[1..], env);
    }
  }

  /** A concatenation of nothing and comments compiles to the empty literal. */
  lemma SilentConcat(items: seq<P.Ast>, env: Env)
    requires forall i :: 0 <= i < |items| ==> Silent(items[i])
    ensures CompileF(P.Concat(items), env) == Ok(EMPTY)
  {
    SilentItems(items, env);
    NoSurvivors(CompileRegexes(items, env).value);
  }

  lemma {:induction false} NoSurvivors(c: seq<A.Node>)
    requires forall x :: x in c ==> x == EMPTY
    ensures Survivors(c) == []
    decreases |c|
  {
    if c != [] {
      var init := c[..|c| - 1];
      assert forall x :: x in init ==> x in c;
      assert c[|c| - 1] in c;
      NoSurvivors(init);
    }
  }

  // -----------------------------------------------------------------------
  // Alternation

  /** With exactly one non-empty branch and some branch that is not merged,
      the alternation is that branch made optional, preferring it when it
      comes first. */
  lemma EitherOfOptional(c: seq<A.Node>, i: nat)
    requires !AllMergeable(c) && CountNonEmpty(c) == 1 && i < |c| && IsNotEmpty(c[i])
    ensures EitherOf(c) == A.Multiple(0, Some(1), i == 0, c[i])
    ensures A.Nullable(EitherOf(c))
  {
    FirstNonEmptyUnique(c, i);
  }

  /** What a single-character branch matches. */
  predicate BranchAccepts(n: A.Node, ch: char) {
    if n.Literal? then n.s == [ch] else n.CharacterClass? && A.ClassAccepts(n, ch)
  }

  lemma SomeItemAcceptsAppend(x: seq<A.ClassItem>, y: seq<A.ClassItem>, ch: char)
    ensures A.SomeItemAccepts(x + y, ch) <==> A.SomeItemAccepts(x, ch) || A.SomeItemAccepts(y, ch)
  {
    var xy := x + y;
    if A.SomeItemAccepts(x + y, ch) {
      var k :| 0 <= k < |xy| && A.ItemAccepts(xy[k], ch);
      if k < |x| {
        assert xy[k] == x[k];
      } else {
        assert xy[k] == y[k - |x|];
      }
    }
    if A.SomeItemAccepts(x, ch) {
      var k :| 0 <= k < |x| && A.ItemAccepts(x[k], ch);
      assert xy[k] == x[k];
    }
    if A.SomeItemAccepts(y, ch) {
      var k :| 0 <= k < |y| && A.ItemAccepts(y[k], ch);
      assert xy[|x| + k] == y[k];
    }
  }

  lemma ItemsOfAccepts(n: A.Node, ch: char)
    requires Mergeable(n)
    ensures A.SomeItemAccepts(ItemsOf(n), ch) <==> BranchAccepts(n, ch)
  {
    if n.Literal? {
      assert A.ItemAccepts(ItemsOf(n)[0], ch) <==> n.s == [ch];
    }
  }

  lemma BranchesAcceptSnoc(c: seq<A.Node>, init: seq<A.Node>, ch: char)
    requires c != [] && init == c[..|c| - 1]
    ensures (exists i :: 0 <= i < |c| && BranchAccepts(c[i], ch)) <==>
      (exists i :: 0 <= i < |init| && BranchAccepts(init[i], ch)) || BranchAccepts(c[|c| - 1], ch)
  {
    if exists i :: 0 <= i < |c| && BranchAccepts(c[i], ch) {
      var i :| 0 <= i < |c| && BranchAccepts(c[i], ch);
      if i < |init| {
        assert init[i] == c[i];
      }
    }
    if exists i :: 0 <= i < |init| && BranchAccepts(init[i], ch) {
      var i :| 0 <= i < |init| && BranchAccepts(init[i], ch);
      assert c[i] == init[i];
    }
  }

  lemma {:induction false} MergedItemsAccept(c: seq<A.Node>, ch: char)
    requires AllMergeable(c)
    ensures A.SomeItemAccepts(MergedItems(c), ch) <==> exists i :: 0 <= i < |c| && BranchAccepts(c[i], ch)
    decreases |c|
  {
    if c != [] {
      var init, last := c[..|c| - 1], c[|c| - 1];
      MergedItemsAccept(init, ch);
      SomeItemAcceptsAppend(MergedItems(init), ItemsOf(last), ch);
      ItemsOfAccepts(last, ch);
      BranchesAcceptSnoc(c, init, ch);
    }
  }

  /** Merged one-character branches give a class that matches a character
      exactly when some branch does. */
  lemma EitherOfMerges(c: seq<A.Node>, ch: char)
    requires AllMergeable(c)
    ensures EitherOf(c).CharacterClass? && !EitherOf(c).inverted
    ensures A.ClassAccepts(EitherOf(c), ch) <==> exists i :: 0 <= i < |c| && BranchAccepts(c[i], ch)
  {
    MergedItemsAccept(c, ch);
  }

  /** As written, `['a' | [not 'b']]` becomes a class that matches 'b',
      which neither branch does; the corrected merge keeps the alternation. */
  lemma EitherAsWrittenDropsInversion()
    ensures var c := [A.Literal("a"), A.CharacterClass([A.Text("b")], true)];
      A.ClassAccepts(EitherOfAsWritten(c), 'b') &&
      !BranchAccepts(c[0], 'b') && !BranchAccepts(c[1], 'b') &&
      EitherOf(c) == A.Either(c)
  {
    var c := [A.Literal("a"), A.CharacterClass([A.Text("b")], true)];
    assert AllSingleChar(c);
    assert !Mergeable(c[1]);
    var merged := MergedItems(c);
    assert MergedItems(c[..1]) == [A.Text("a")] by {
      assert c[..1][..0] == [];
    }
    assert merged == [A.Text("a"), A.Text("b")];
    assert A.ItemAccepts(merged[1], 'b');
    assert A.ItemAccepts(c[1].items[0], 'b');
    assert CountNonEmpty(c) == 2 by {
      assert c[..1][..0] == [];
    }
  }

  // -----------------------------------------------------------------------
  // Scoping of definitions

  /** A definition may not reuse a name that is already visible. */
  lemma {:induction false} DefinitionMustBeFresh(items: seq<P.Ast>, env: Env, i: nat)
    requires i < |items| && items[i].Def? && items[i].name in env
    ensures DefineAll(items, env).Err?
    ensures CompileF(P.Concat(items), env).Err?
    decreases |items|
  {
    if i > 0 {
      if items[0].Def? && items[0].name !in env && CompileF(items[0].subregex, env).Ok? {
        DefinitionMustBeFresh(items[1..], env[items[0].name := CompileF(items[0].subregex, env).value], i - 1);
      } else if !items[0].Def? {
        DefinitionMustBeFresh(items[1..], env, i - 1);
      }
    }
  }

  /** Two definitions of one name in a concatenation are refused. */
  lemma {:induction false} NoRedefinition(items: seq<P.Ast>, env: Env, i: nat, j: nat)
    requires i < j < |items| && items[i].Def? && items[j].Def? && items[i].name == items[j].name
    ensures DefineAll(items, env).Err?
    ensures CompileF(P.Concat(items), env).Err?
    decreases |items|
  {
    var d := items[0];
    if d.Def? && d.name !in env && CompileF(d.subregex, env).Ok? {
      var env' := env[d.name := CompileF(d.subregex, env).value];
      if i == 0 {
        DefinitionMustBeFresh(items[1..], env', j - 1);
      } else {
        NoRedefinition(items[1..], env', i - 1, j - 1);
      }
    } else if !d.Def? {
      NoRedefinition(items[1..], env, i - 1, j - 1);
    }
  }

  /** A macro may be used before the definition that follows it. */
  lemma UseBeforeDefinition(name: string, s: string, env: Env)
    requires name !in env
    ensures CompileF(P.Concat([P.Macro(name), P.Def(name, P.Literal(s))]), env) == Ok(A.Literal(s))
  {
    var items := [P.Macro(name), P.Def(name, P.Literal(s))];
    var scope := env[name := A.Literal(s)];
    assert DefineAll(items[1..], env) == Ok(scope) by {
      assert items[1..][1..] == [];
    }
    assert CompileRegexes(items[1..], scope) == Ok([]) by {
      assert items[1..][0] == P.Def(name, P.Literal(s)) && items[1..][1..] == [];
    }
    assert CompileRegexes(items, scope) == Ok([A.Literal(s)]) by {
      assert [A.Literal(s)] + [] == [A.Literal(s)];
    }
    assert Survivors([A.Literal(s)]) == if s == "" then [] else [A.Literal(s)] by {
      assert [A.Literal(s)][..0] == [];
    }
    assert DefineAll(items, env) == Ok(scope);
  }

  /** A definition in a nested concatenation is not visible after it. */
  lemma NestedDefinitionInvisible(name: string, s: string, env: Env)
    requires name !in env
    ensures CompileF(P.Concat([P.Concat([P.Def(name, P.Literal(s))]), P.Macro(name)]), env).Err?
  {
    var inner := [P.Def(name, P.Literal(s))];
    var items := [P.Concat(inner), P.Macro(name)];
    assert DefineAll(items[1..], env) == Ok(env) by {
      assert items[1..][0] == P.Macro(name) && items[1..][1..] == [];
    }
    var scope := env[name := A.Literal(s)];
    assert DefineAll(inner, env) == Ok(scope) by {
      assert inner[1..] == [];
    }
    assert CompileRegexes(inner, scope) == Ok([]) by {
      assert inner[1..] == [];
    }
    assert CompileF(items[0], env) == Ok(EMPTY);
    assert CompileRegexes(items[1..], env).Err? by {
      assert items[1..][0] == P.Macro(name);
    }
  }

  /** A definition is visible inside a nested concatenation. */
  lemma OuterDefinitionVisible(name: string, s: string, env: Env)
    requires name !in env
    ensures CompileF(P.Concat([P.Concat([P.Macro(name)]), P.Def(name, P.Literal(s))]), env) == Ok(A.Literal(s))
  {
    var items := [P.Concat([P.Macro(name)]), P.Def(name, P.Literal(s))];
    var scope := env[name := A.Literal(s)];
    assert DefineAll(items[1..], env) == Ok(scope) by {
      assert items[1..][1..] == [];
    }
    var inner := [P.Macro(name)];
    assert DefineAll(inner, scope) == Ok(scope) by {
      assert inner[1..] == [];
    }
    assert CompileRegexes(inner, scope) == Ok([A.Literal(s)]) by {
      assert inner[1..] == [];
      assert [A.Literal(s)] + [] == [A.Literal(s)];
    }
    assert Survivors([A.Literal(s)]) == if s == "" then [] else [A.Literal(s)] by {
      assert [A.Literal(s)][..0] == [];
    }
    assert CompileF(items[0], scope) == Ok(A.Literal(s));
    assert CompileRegexes(items[1..], scope) == Ok([]) by {
      assert items[1..][0] == P.Def(name, P.Literal(s)) && items[1..][1..] == [];
    }
    assert [A.Literal(s)] + [] == [A.Literal(s)];
  }
}
