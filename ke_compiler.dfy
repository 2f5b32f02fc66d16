/**
 * The kleenexp compiler (ke/compiler.py): AST to assembly nodes, with a
 * macro table scoped per concatenation.
 */
module KeCompiler {
  import opened Errors
  import opened Decimal
  import A = Asm
  import P = KeParser

  type Env = map<string, A.Node>

  const EMPTY: A.Node := A.Literal("")

  /** `is_not_empty`. */
  predicate IsNotEmpty(n: A.Node) {
    n != A.Literal("") && n != A.Concat([]) && !(n.Multiple? && n.max == Some(0))
  }

  /** `is_single_char`. */
  predicate IsSingleChar(n: A.Node) {
    (n.Literal? && |n.s| == 1) || n.CharacterClass?
  }

  // -----------------------------------------------------------------------
  // compile_separate (compiler.py:92-127)

  /** The separated repetition `sub (sep sub){min',max'}`, optionally
      alternated with the empty string. */
  function SeparatedRepetition(sep: string, min: nat, max: Option<nat>, greedy: bool, sub: A.Node, optional: bool): A.Node
    requires max.None? || max.value >= 1
  {
    var reducedMin := if min == 0 then 0 else min - 1;
    var reducedMax := if max.None? then None else Some(max.value - 1);
    var subs := A.Concat([sub, A.Multiple(reducedMin, reducedMax, greedy, A.Concat([A.Literal(sep), sub]))]);
    if optional then A.Either([subs, EMPTY]) else subs
  }

  /** `compile_separate`. The empty alternative is added when the reduced
      minimum is zero (`asWritten`) or when the original minimum is zero. */
  function SeparateBy(separator: Option<string>, expr: A.Node, asWritten: bool): Result<A.Node> {
    if separator.None? then Err(CompileError, "Must specify a valid separator: ',', ':', '|'")
    else if expr.ErrorValue? then Err(TypeError, "cannot unpack non-iterable CompileError object")
    else if !expr.Multiple? then Err(ValueError, "not enough values to unpack (expected 4)")
    else
      var min, max := expr.min, expr.max;
      if max.Some? && min > max.value then Ok(A.ErrorValue("Range upper bound exceeds lower bound."))
      else if max == Some(0) then Ok(EMPTY)
      else if min == 0 && max == Some(1) then Ok(expr)
      else
        var optional := if asWritten then min <= 1 else min == 0;
        Ok(SeparatedRepetition(separator.value, min, max, expr.greedy, expr.sub, optional))
  }

  /** `compile_separate` as written: the result is made optional when the
      reduced minimum `max(0, min - 1)` is zero. */
  function SeparateAsWritten(separator: Option<string>, expr: A.Node): Result<A.Node> {
    SeparateBy(separator, expr, true)
  }

  /** `compile_separate` as its comment at compiler.py:124 describes it:
      optional only when the repetition may occur zero times. */
  function Separate(separator: Option<string>, expr: A.Node): Result<A.Node> {
    SeparateBy(separator, expr, false)
  }

  // -----------------------------------------------------------------------
  // invert_operator (compiler.py:132-146)

  function InvertOperator(name: Option<string>, expr: A.Node): Result<A.Node> {
    if name.Some? then Err(CompileError, "Invert operator does not accept name")
    else if expr.Literal? && |expr.s| == 1 then Ok(A.CharacterClass([A.Text(expr.s)], true))
    else if expr.CharacterClass? || expr.Boundary? then A.Invert(expr)
    else if expr.ErrorValue? then Err(AttributeError, "'CompileError' object has no attribute 'to_regex'")
    else Err(TypeError, "to_regex() got an unexpected keyword argument 'flavor'")
  }

  // -----------------------------------------------------------------------
  // Repeat operators (compiler.py:239-261)

  predicate DigitRun(s: string) {
    |s| >= 1 && AllDigits(s)
  }

  /** `N-M`, `N+` or `N`, exactly. */
  function RepeatCore(s: string): Option<(nat, Option<nat>)> {
    var k := A.Find(s, '-');
    if k < |s| then
      if DigitRun(s[..k]) && DigitRun(s[k + 1..]) then Some((Value(s[..k]), Some(Value(s[k + 1..])))) else None
    else if |s| >= 2 && s[|s| - 1] == '+' && DigitRun(s[..|s| - 1]) then Some((Value(s[..|s| - 1]), None))
    else if DigitRun(s) then Some((Value(s), Some(Value(s))))
    else None
  }

  /** `REPEAT_OPERATOR.match(op_name)`: `$` also matches before a final
      newline. */
  function RepeatBounds(opName: string): Option<(nat, Option<nat>)> {
    if RepeatCore(opName).Some? then RepeatCore(opName)
    else if |opName| >= 1 && opName[|opName| - 1] == '\n' then RepeatCore(opName[..|opName| - 1])
    else None
  }

  /** The repeat operator name that denotes a repetition count. */
  function RepeatName(min: nat, max: Option<nat>): string {
    if max.None? then Str(min) + "+"
    else if max.value == min then Str(min)
    else Str(min) + "-" + Str(max.value)
  }

  // -----------------------------------------------------------------------
  // Builtin operators (compiler.py:149-162)

  datatype OperatorKind = CaptureOp | NotOp | SeparateOp | LookaheadOp | LookbehindOp

  const BUILTIN_OPERATORS: map<string, OperatorKind> := map[
    "capture" := CaptureOp, "not" := NotOp, "separate" := SeparateOp,
    "lookahead" := LookaheadOp, "lookbehind" := LookbehindOp,
    "c" := CaptureOp, "n" := NotOp, "sep" := SeparateOp, "la" := LookaheadOp]

  /** The short operator names stand for the same operators as the long
      ones, and every operator has exactly its long and its short name. */
  lemma OperatorShortNames()
    ensures BUILTIN_OPERATORS["c"] == BUILTIN_OPERATORS["capture"] == CaptureOp
    ensures BUILTIN_OPERATORS["n"] == BUILTIN_OPERATORS["not"] == NotOp
    ensures BUILTIN_OPERATORS["sep"] == BUILTIN_OPERATORS["separate"] == SeparateOp
    ensures BUILTIN_OPERATORS["la"] == BUILTIN_OPERATORS["lookahead"] == LookaheadOp
    ensures BUILTIN_OPERATORS["lookbehind"] == LookbehindOp && |BUILTIN_OPERATORS| == 9
  {
  }

  /** `compile_operator` once the body has been compiled to `sub`. */
  function OperatorOf(opName: string, name: Option<string>, sub: A.Node): Result<A.Node> {
    if !IsNotEmpty(sub) && opName != "separate" then
      Err(CompileError, "Operator " + opName + " not allowed to have empty body")
    else if RepeatBounds(opName).Some? then
      Ok(A.Multiple(RepeatBounds(opName).value.0, RepeatBounds(opName).value.1, true, sub))
    else if opName !in BUILTIN_OPERATORS then
      Err(CompileError, "Operator " + opName + " does not exist")
    else match BUILTIN_OPERATORS[opName]
      case CaptureOp => Ok(A.Capture(name, sub))
      case NotOp => InvertOperator(name, sub)
      case SeparateOp => Separate(name, sub)
      case LookaheadOp => Err(AttributeError, "module 'ke.asm' has no attribute 'Lookahead'")
      case LookbehindOp => Err(AttributeError, "module 'ke.asm' has no attribute 'Lookbehind'")
  }

  // -----------------------------------------------------------------------
  // compile_range (compiler.py:276-303)

  datatype Category = Lowercase | Uppercase | Digit

  /** `character_category` on ASCII characters. */
  function CharacterCategory(c: char): Result<Category> {
    if 'a' <= c <= 'z' then Ok(Lowercase)
    else if 'A' <= c <= 'Z' then Ok(Uppercase)
    else if '0' <= c <= '9' then Ok(Digit)
    else Err(AssertionError, "Unknown character class: " + [c])
  }

  function CompileRange(start: char, end: char): Result<A.Node> {
    var startCategory :- CharacterCategory(start);
    var endCategory :- CharacterCategory(end);
    if startCategory != endCategory then Err(CompileError, "Range start and end not of the same category")
    else if start > end then Err(CompileError, "Range start after range end")
    else if start == end then Ok(A.CharacterClass([A.Text([start])], false))
    else Ok(A.CharacterClass([A.Span(start, end)], false))
  }

  // -----------------------------------------------------------------------
  // compile_either (compiler.py:206-236)

  predicate AllSingleChar(compiled: seq<A.Node>) {
    forall i :: 0 <= i < |compiled| ==> IsSingleChar(compiled[i])
  }

  /** A branch that can be merged into a class without changing what the
      alternation matches: a one-character literal or a non-inverted class. */
  predicate Mergeable(n: A.Node) {
    IsSingleChar(n) && !(n.CharacterClass? && n.inverted)
  }

  predicate AllMergeable(compiled: seq<A.Node>) {
    forall i :: 0 <= i < |compiled| ==> Mergeable(compiled[i])
  }

  /** The class entries a single-character branch contributes. */
  function ItemsOf(n: A.Node): seq<A.ClassItem> {
    if n.Literal? && |n.s| == 1 then [A.Text(n.s)]
    else if n.CharacterClass? then n.items
    else []
  }

  /** The entries collected from the branches, in order. */
  function MergedItems(compiled: seq<A.Node>): seq<A.ClassItem> {
    if compiled == [] then [] else MergedItems(compiled[..|compiled| - 1]) + ItemsOf(compiled[|compiled| - 1])
  }

  function CountNonEmpty(compiled: seq<A.Node>): nat {
    if compiled == [] then 0
    else CountNonEmpty(compiled[..|compiled| - 1]) + (if IsNotEmpty(compiled[|compiled| - 1]) then 1 else 0)
  }

  /** The index of the first non-empty branch. */
  function FirstNonEmpty(compiled: seq<A.Node>): (i: nat)
    requires CountNonEmpty(compiled) >= 1
    ensures i < |compiled| && IsNotEmpty(compiled[i])
  {
    if CountNonEmpty(compiled[..|compiled| - 1]) >= 1 then FirstNonEmpty(compiled[..|compiled| - 1])
    else |compiled| - 1
  }

  /** What `compile_either` builds from the compiled branches, once it has
      decided whether to merge them into one class. */
  function EitherFrom(compiled: seq<A.Node>, merge: bool): A.Node {
    if merge then A.CharacterClass(MergedItems(compiled), false)
    else if CountNonEmpty(compiled) == 1 then
      var i := FirstNonEmpty(compiled);
      A.Multiple(0, Some(1), i == 0, compiled[i])
    else A.Either(compiled)
  }

  /** `compile_either` as written: the branches are merged whenever each is
      a one-character literal or a class, inverted or not. */
  function EitherOfAsWritten(compiled: seq<A.Node>): A.Node {
    EitherFrom(compiled, AllSingleChar(compiled))
  }

  /** `compile_either` with the merge restricted to branches whose matches
      a non-inverted class can hold. */
  function EitherOf(compiled: seq<A.Node>): A.Node {
    EitherFrom(compiled, AllMergeable(compiled))
  }

  // -----------------------------------------------------------------------
  // compile_concat (compiler.py:174-192)

  /** The non-empty compiled items, in order. */
  function Survivors(compiled: seq<A.Node>): (r: seq<A.Node>)
    ensures forall i :: 0 <= i < |r| ==> IsNotEmpty(r[i])
  {
    if compiled == [] then []
    else Survivors(compiled[..|compiled| - 1]) + (if IsNotEmpty(compiled[|compiled| - 1]) then [compiled[|compiled| - 1]] else [])
  }

  function ConcatOf(kept: seq<A.Node>): A.Node {
    if kept == [] then EMPTY else if |kept| == 1 then kept[0] else A.Concat(kept)
  }

  /** The names the definitions among items bind. */
  function DefNames(items: seq<P.Ast>): set<string> {
    set i | 0 <= i < |items| && items[i].Def? :: items[i].name
  }

  /** `[compile_ast(s, macros) for s in ...]`: the first error, or all results. */
  function Prepend(done: seq<A.Node>, rest: Result<seq<A.Node>>): Result<seq<A.Node>> {
    if rest.Ok? then Ok(done + rest.value) else rest
  }

  // -----------------------------------------------------------------------
  // The compiler as a function of the AST and the visible macros

  function CompileF(ast: P.Ast, env: Env): Result<A.Node>
    decreases ast
  {
    match ast
    case Concat(items) =>
      var scope :- DefineAll(items, env);
      var compiled :- CompileRegexes(items, scope);
      Ok(ConcatOf(Survivors(compiled)))
    case Either(items) =>
      var compiled :- CompileAll(items, env);
      Ok(EitherOf(compiled))
    case Def(_, _) => Err(AssertionError, "temporarily, macro definition is only allowed directly under Concat([])")
    case Operator(opName, name, subregex) =>
      if opName == "comment" then Ok(EMPTY)
      else
        var sub :- CompileF(subregex, env);
        OperatorOf(opName, name, sub)
    case Macro(name) =>
      if name in env then Ok(env[name])
      else Err(CompileError, "Macro " + name + " does not exist, perhaps you defined it in the wrong scope?")
    case Range(start, end) => CompileRange(start, end)
    case Literal(s) => Ok(A.Literal(s))
    case Nothing => Ok(EMPTY)
  }

  lemma CommentStep(name: Option<string>, subregex: P.Ast, env: Env)
    ensures CompileF(P.Operator("comment", name, subregex), env) == Ok(EMPTY)
  {
  }

  lemma OperatorBodyFails(opName: string, name: Option<string>, subregex: P.Ast, env: Env)
    requires opName != "comment" && CompileF(subregex, env).Err?
    ensures CompileF(P.Operator(opName, name, subregex), env) == Err(CompileF(subregex, env).kind, CompileF(subregex, env).message)
  {
  }

  lemma OperatorBodyCompiles(opName: string, name: Option<string>, subregex: P.Ast, env: Env, sub: A.Node)
    requires opName != "comment" && CompileF(subregex, env) == Ok(sub)
    ensures CompileF(P.Operator(opName, name, subregex), env) == OperatorOf(opName, name, sub)
  {
  }

  /** The macro table after the definitions among items, in order. */
  function DefineAll(items: seq<P.Ast>, env: Env): Result<Env>
    decreases items
  {
    if items == [] then Ok(env)
    else if items[0].Def? then
      if items[0].name in env then Err(CompileError, "Macro " + items[0].name + " already defined")
      else
        var value :- CompileF(items[0].subregex, env);
        DefineAll(items[1..], env[items[0].name := value])
    else DefineAll(items[1..], env)
  }

  /** The compiled non-definition items, in order. */
  function CompileRegexes(items: seq<P.Ast>, env: Env): Result<seq<A.Node>>
    decreases items
  {
    if items == [] then Ok([])
    else if items[0].Def? then CompileRegexes(items[1..], env)
    else
      var head :- CompileF(items[0], env);
      var tail :- CompileRegexes(items[1..], env);
      Ok([head] + tail)
  }

  /** `[compile_ast(s, macros) for s in items]`. */
  function CompileAll(items: seq<P.Ast>, env: Env): Result<seq<A.Node>>
    decreases items
  {
    if items == [] then Ok([])
    else
      var head :- CompileF(items[0], env);
      var tail :- CompileAll(items[1..], env);
      Ok([head] + tail)
  }

  /** The list of compiled items exists exactly when every item compiles,
      and then holds each item's result in order. */
  lemma {:induction false} CompileAllSpec(items: seq<P.Ast>, env: Env)
    ensures CompileAll(items, env).Ok? <==> forall i :: 0 <= i < |items| ==> CompileF(items[i], env).Ok?
    ensures CompileAll(items, env).Ok? ==> |CompileAll(items, env).value| == |items|
    ensures CompileAll(items, env).Ok? ==>
      forall i :: 0 <= i < |items| ==> CompileAll(items, env).value[i] == CompileF(items[i], env).value
    decreases |items|
  {
    if items != [] {
      CompileAllSpec(items[1..], env);
      forall i | 1 <= i < |items| ensures items[i] == items[1..][i - 1] { }
    }
  }

  /** `compile`: the builtin table is copied, and the result wrapped in an
      empty setting. */
  function CompileTop(ast: P.Ast, builtins: Env): Result<A.Node> {
    var sub :- CompileF(ast, builtins);
    Ok(A.Setting("", sub))
  }

  // -----------------------------------------------------------------------
  // Facts the methods below rely on

  lemma {:induction false} DefineAllScope(items: seq<P.Ast>, env: Env)
    requires DefineAll(items, env).Ok?
    ensures var scope := DefineAll(items, env).value;
      scope.Keys == env.Keys + DefNames(items) &&
      DefNames(items) !! env.Keys &&
      forall key :: key in env ==> scope[key] == env[key]
    decreases items
  {
    if items != [] {
      var rest := items[1..];
      assert DefNames(items) == (if items[0].Def? then {items[0].name} else {}) + DefNames(rest) by {
        forall name | name in DefNames(items) ensures name in (if items[0].Def? then {items[0].name} else {}) + DefNames(rest) {
          var i :| 0 <= i < |items| && items[i].Def? && items[i].name == name;
          if i > 0 {
            assert rest[i - 1] == items[i];
          }
        }
        forall name | name in DefNames(rest) ensures name in DefNames(items) {
          var i :| 0 <= i < |rest| && rest[i].Def? && rest[i].name == name;
          assert items[i + 1] == rest[i];
        }
      }
      if items[0].Def? {
        var value := CompileF(items[0].subregex, env).value;
        DefineAllScope(rest, env[items[0].name := value]);
      } else {
        DefineAllScope(rest, env);
      }
    }
  }

  /** Deleting the defined names from the scope restores the table. */
  lemma DefineAllUndone(items: seq<P.Ast>, env: Env)
    requires DefineAll(items, env).Ok?
    ensures DefineAll(items, env).value - DefNames(items) == env
  {
    DefineAllScope(items, env);
  }

  lemma DefNamesSnoc(items: seq<P.Ast>, k: nat)
    requires k < |items|
    ensures DefNames(items[..k + 1]) == DefNames(items[..k]) + (if items[k].Def? then {items[k].name} else {})
  {
    var p, q := items[..k + 1], items[..k];
    forall name | name in DefNames(p) ensures name in DefNames(q) + (if items[k].Def? then {items[k].name} else {}) {
      var i :| 0 <= i < |p| && p[i].Def? && p[i].name == name;
      if i < k {
        assert q[i] == p[i];
      }
    }
    forall name | name in DefNames(q) ensures name in DefNames(p) {
      var i :| 0 <= i < |q| && q[i].Def? && q[i].name == name;
      assert p[i] == q[i];
    }
    if items[k].Def? {
      assert p[k] == items[k];
    }
  }

  lemma MergedItemsSnoc(compiled: seq<A.Node>, i: nat)
    requires i < |compiled|
    ensures MergedItems(compiled[..i + 1]) == MergedItems(compiled[..i]) + ItemsOf(compiled[i])
  {
    PrefixOfPrefix(compiled, i + 1, i);
  }

  lemma PrefixOfPrefix<T>(s: seq<T>, j: nat, k: nat)
    requires k <= j <= |s|
    ensures s[..j][..k] == s[..k]
  {
  }

  lemma CountNonEmptySnoc(compiled: seq<A.Node>, i: nat)
    requires i < |compiled|
    ensures CountNonEmpty(compiled[..i + 1]) == CountNonEmpty(compiled[..i]) + (if IsNotEmpty(compiled[i]) then 1 else 0)
    ensures CountNonEmpty(compiled[..i]) >= 1 ==> FirstNonEmpty(compiled[..i + 1]) == FirstNonEmpty(compiled[..i])
    ensures CountNonEmpty(compiled[..i]) == 0 && IsNotEmpty(compiled[i]) ==> FirstNonEmpty(compiled[..i + 1]) == i
  {
    PrefixOfPrefix(compiled, i + 1, i);
  }

  /** A prefix has at most as many non-empty branches as the whole. */
  lemma {:induction false} CountNonEmptyPrefix(compiled: seq<A.Node>, i: nat)
    requires i <= |compiled|
    ensures CountNonEmpty(compiled[..i]) <= CountNonEmpty(compiled)
    decreases |compiled| - i
  {
    if i < |compiled| {
      CountNonEmptySnoc(compiled, i);
      CountNonEmptyPrefix(compiled, i + 1);
    } else {
      assert compiled[..i] == compiled;
    }
  }

  /** The first non-empty branch of a prefix is the first of the whole. */
  lemma {:induction false} FirstNonEmptyPrefix(compiled: seq<A.Node>, i: nat)
    requires i <= |compiled| && CountNonEmpty(compiled[..i]) >= 1
    ensures CountNonEmpty(compiled) >= 1 && FirstNonEmpty(compiled) == FirstNonEmpty(compiled[..i])
    decreases |compiled| - i
  {
    CountNonEmptyPrefix(compiled, i);
    if i < |compiled| {
      CountNonEmptySnoc(compiled, i);
      FirstNonEmptyPrefix(compiled, i + 1);
    } else {
      assert compiled[..i] == compiled;
    }
  }

  lemma PrependNil(rest: Result<seq<A.Node>>)
    ensures Prepend([], rest) == rest
  {
    if rest.Ok? {
      assert [] + rest.value == rest.value;
    }
  }

  lemma PrependDone(done: seq<A.Node>)
    ensures Prepend(done, Ok([])) == Ok(done)
  {
    assert done + [] == done;
  }

  /** One more compiled item moves from the pending result to the done list. */
  lemma PrependHead(done: seq<A.Node>, head: A.Node, tail: Result<seq<A.Node>>)
    ensures Prepend(done, if tail.Ok? then Ok([head] + tail.value) else Err(tail.kind, tail.message)) ==
      Prepend(done + [head], tail)
  {
    if tail.Ok? {
      assert done + ([head] + tail.value) == (done + [head]) + tail.value;
    }
  }

  lemma DefineAllStep(items: seq<P.Ast>, k: nat, env: Env)
    requires k < |items|
    ensures var d := items[k];
      DefineAll(items[k..], env) ==
        if !d.Def? then DefineAll(items[k + 1..], env)
        else if d.name in env then Err(CompileError, "Macro " + d.name + " already defined")
        else if CompileF(d.subregex, env).Err? then
          Err(CompileF(d.subregex, env).kind, CompileF(d.subregex, env).message)
        else DefineAll(items[k + 1..], env[d.name := CompileF(d.subregex, env).value])
  {
    assert items[k..][0] == items[k] && items[k..][1..] == items[k + 1..];
  }

  lemma CompileRegexesStep(items: seq<P.Ast>, k: nat, env: Env)
    requires k < |items|
    ensures var d := items[k];
      CompileRegexes(items[k..], env) ==
        if d.Def? then CompileRegexes(items[k + 1..], env)
        else if CompileF(d, env).Err? then Err(CompileF(d, env).kind, CompileF(d, env).message)
        else
          var tail := CompileRegexes(items[k + 1..], env);
          if tail.Ok? then Ok([CompileF(d, env).value] + tail.value) else Err(tail.kind, tail.message)
  {
    assert items[k..][0] == items[k] && items[k..][1..] == items[k + 1..];
  }

  lemma CompileAllStep(items: seq<P.Ast>, k: nat, env: Env)
    requires k < |items|
    ensures var d := items[k];
      CompileAll(items[k..], env) ==
        if CompileF(d, env).Err? then Err(CompileF(d, env).kind, CompileF(d, env).message)
        else
          var tail := CompileAll(items[k + 1..], env);
          if tail.Ok? then Ok([CompileF(d, env).value] + tail.value) else Err(tail.kind, tail.message)
  {
    assert items[k..][0] == items[k] && items[k..][1..] == items[k + 1..];
  }

  // -----------------------------------------------------------------------
  // The compiler with its mutable macro table (compiler.py:165-192, 206-230)

  class Compiler {
    /** The macros visible at the current point of the compilation. */
    var macros: Env

    constructor(builtins: Env)
      ensures macros == builtins
    {
      macros := builtins;
    }

    /** `compile_ast`. On success the macro table is left as it was. */
    method CompileAst(ast: P.Ast) returns (r: Result<A.Node>)
      modifies this
      ensures r == CompileF(ast, old(macros))
      ensures r.Ok? ==> macros == old(macros)
      decreases ast, 2
    {
      ghost var env := macros;
      match ast
      case Concat(items) =>
        r := CompileConcat(items);
        assert CompileF(ast, env) == CompileF(P.Concat(items), env);
      case Either(items) =>
        r := CompileEither(items);
        assert CompileF(ast, env) == CompileF(P.Either(items), env);
      case Def(name, subregex) =>
        r := Err(AssertionError, "temporarily, macro definition is only allowed directly under Concat([])");
        assert CompileF(ast, env) == CompileF(P.Def(name, subregex), env);
      case Operator(opName, name, subregex) =>
        r := CompileOperator(opName, name, subregex);
        assert CompileF(ast, env) == CompileF(P.Operator(opName, name, subregex), env);
      case Macro(name) =>
        r := CompileMacro(name);
        assert CompileF(ast, env) == CompileF(P.Macro(name), env);
      case Range(start, end) =>
        r := CompileRange(start, end);
        assert CompileF(ast, env) == CompileF(P.Range(start, end), env);
      case Literal(s) =>
        r := Ok(A.Literal(s));
        assert CompileF(ast, env) == CompileF(P.Literal(s), env);
      case Nothing =>
        r := Ok(EMPTY);
        assert CompileF(ast, env) == CompileF(P.Nothing, env);
    }

    /** `compile_operator`: a comment is empty; otherwise the body is
        compiled and the operator applied to it. */
    method CompileOperator(opName: string, name: Option<string>, subregex: P.Ast) returns (r: Result<A.Node>)
      modifies this
      ensures r == CompileF(P.Operator(opName, name, subregex), old(macros))
      ensures r.Ok? ==> macros == old(macros)
      decreases P.Operator(opName, name, subregex), 1
    {
      if opName == "comment" {
        CommentStep(name, subregex, macros);
        return Ok(EMPTY);
      }
      var sub := CompileAst(subregex);
      if sub.Err? {
        OperatorBodyFails(opName, name, subregex, old(macros));
        return Err(sub.kind, sub.message);
      }
      OperatorBodyCompiles(opName, name, subregex, old(macros), sub.value);
      r := OperatorOf(opName, name, sub.value);
    }

    /** `compile_macro`: the macro visible under that name. */
    method CompileMacro(name: string) returns (r: Result<A.Node>)
      ensures r == CompileF(P.Macro(name), macros)
    {
      if name in macros {
        r := Ok(macros[name]);
      } else {
        r := Err(CompileError, "Macro " + name + " does not exist, perhaps you defined it in the wrong scope?");
      }
    }

    /** `compile_concat`: bind the definitions, compile the other items with
        them in scope, drop the empty results, then unbind the definitions. */
    method CompileConcat(items: seq<P.Ast>) returns (r: Result<A.Node>)
      modifies this
      ensures r == CompileF(P.Concat(items), old(macros))
      ensures r.Ok? ==> macros == old(macros)
      decreases items, 1
    {
      ghost var env := macros;
      var scope := DefineMacros(items);
      if scope.Err? {
        return Err(scope.kind, scope.message);
      }
      var compiled := CompileItems(items);
      if compiled.Err? {
        return Err(compiled.kind, compiled.message);
      }
      var kept := Survivors(compiled.value);
      UndefineMacros(items);
      DefineAllUndone(items, env);
      r := Ok(ConcatOf(kept));
    }

    /** The first loop of `compile_concat`: each definition in turn is
        compiled and bound, and an existing name is refused. */
    method DefineMacros(items: seq<P.Ast>) returns (r: Result<Env>)
      modifies this
      ensures r == DefineAll(items, old(macros))
      ensures r.Ok? ==> macros == r.value
      decreases items, 0
    {
      ghost var env := macros;
      var k := 0;
      while k < |items|
        invariant 0 <= k <= |items|
        invariant DefineAll(items, env) == DefineAll(items[k..], macros)
      {
        DefineAllStep(items, k, macros);
        if items[k].Def? {
          var d := items[k];
          if d.name in macros {
            return Err(CompileError, "Macro " + d.name + " already defined");
          }
          var value := CompileAst(d.subregex);
          if value.Err? {
            return Err(value.kind, value.message);
          }
          macros := macros[d.name := value.value];
        }
        k := k + 1;
      }
      r := Ok(macros);
    }

    /** The second loop of `compile_concat`: every item that is not a
        definition, compiled in order. */
    method CompileItems(items: seq<P.Ast>) returns (r: Result<seq<A.Node>>)
      modifies this
      ensures r == CompileRegexes(items, old(macros))
      ensures r.Ok? ==> macros == old(macros)
      decreases items, 0
    {
      ghost var scope := macros;
      var compiled: seq<A.Node> := [];
      PrependNil(CompileRegexes(items, scope));
      var k := 0;
      while k < |items|
        invariant 0 <= k <= |items|
        invariant macros == scope
        invariant CompileRegexes(items, scope) == Prepend(compiled, CompileRegexes(items[k..], scope))
      {
        CompileRegexesStep(items, k, scope);
        if !items[k].Def? {
          var c := CompileAst(items[k]);
          if c.Err? {
            return Err(c.kind, c.message);
          }
          PrependHead(compiled, c.value, CompileRegexes(items[k + 1..], scope));
          compiled := compiled + [c.value];
        }
        k := k + 1;
      }
      PrependDone(compiled);
      r := Ok(compiled);
    }

    /** The last loop of `compile_concat`: `del macros[d.name]`. */
    method UndefineMacros(items: seq<P.Ast>)
      modifies this
      ensures macros == old(macros) - DefNames(items)
    {
      var k := 0;
      while k < |items|
        invariant 0 <= k <= |items|
        invariant macros == old(macros) - DefNames(items[..k])
      {
        DefNamesSnoc(items, k);
        if items[k].Def? {
          macros := macros - {items[k].name};
        }
        k := k + 1;
      }
      assert items[..k] == items;
    }

    /** `compile_either`. */
    method CompileEither(items: seq<P.Ast>) returns (r: Result<A.Node>)
      modifies this
      ensures r == CompileF(P.Either(items), old(macros))
      ensures r.Ok? ==> macros == old(macros)
      decreases items, 1
    {
      ghost var env := macros;
      var compiled: seq<A.Node> := [];
      PrependNil(CompileAll(items, env));
      var k := 0;
      while k < |items|
        invariant 0 <= k <= |items|
        invariant macros == env
        invariant CompileAll(items, env) == Prepend(compiled, CompileAll(items[k..], env))
      {
        CompileAllStep(items, k, env);
        var c := CompileAst(items[k]);
        if c.Err? {
          return Err(c.kind, c.message);
        }
        PrependHead(compiled, c.value, CompileAll(items[k + 1..], env));
        compiled := compiled + [c.value];
        k := k + 1;
      }
      PrependDone(compiled);
      var n := EitherOfCompiled(compiled);
      r := Ok(n);
    }
  }

  /** The merging loop of `compile_either`: the class entries of every
      branch, in order. */
  method MergeBranches(compiled: seq<A.Node>) returns (characters: seq<A.ClassItem>)
    ensures characters == MergedItems(compiled)
  {
    characters := [];
    var i := 0;
    while i < |compiled|
      invariant 0 <= i <= |compiled|
      invariant characters == MergedItems(compiled[..i])
    {
      MergedItemsSnoc(compiled, i);
      var c := compiled[i];
      if c.Literal? && |c.s| == 1 {
        characters := characters + [A.Text(c.s)];
      } else if c.CharacterClass? {
        characters := characters + c.items;
      }
      i := i + 1;
    }
    assert compiled[..i] == compiled;
  }

  /** The branch-combining part of `compile_either`: merge single
      characters, or count the non-empty branches and stop at the second. */
  method EitherOfCompiled(compiled: seq<A.Node>) returns (n: A.Node)
    ensures n == EitherOf(compiled)
  {
    if forall i :: 0 <= i < |compiled| ==> IsSingleChar(compiled[i]) && !(compiled[i].CharacterClass? && compiled[i].inverted) {
      var characters := MergeBranches(compiled);
      return A.CharacterClass(characters, false);
    }
    var nonEmptyElements := 0;
    var nonEmpty: Option<A.Node> := None;
    var isGreedy := false;
    var i := 0;
    while i < |compiled|
      invariant 0 <= i <= |compiled|
      invariant nonEmptyElements == CountNonEmpty(compiled[..i]) <= 1
      invariant nonEmptyElements == 0 ==> nonEmpty.None?
      invariant nonEmptyElements == 1 ==>
        var j := FirstNonEmpty(compiled[..i]);
        nonEmpty == Some(compiled[j]) && isGreedy == (j == 0)
    {
      CountNonEmptySnoc(compiled, i);
      if IsNotEmpty(compiled[i]) {
        isGreedy := i == 0;
        nonEmptyElements := nonEmptyElements + 1;
        nonEmpty := Some(compiled[i]);
      }
      if nonEmptyElements >= 2 {
        CountNonEmptyPrefix(compiled, i + 1);
        nonEmpty := None;
        break;
      }
      i := i + 1;
    }
    if nonEmpty.Some? {
      assert compiled[..i] == compiled;
      n := A.Multiple(0, Some(1), isGreedy, nonEmpty.value);
    } else {
      if i == |compiled| {
        assert compiled[..i] == compiled;
      }
      n := A.Either(compiled);
    }
  }

  /** `compile`. */
  method Compile(ast: P.Ast, builtins: Env) returns (r: Result<A.Node>)
    ensures r == CompileTop(ast, builtins)
  {
    var compiler := new Compiler(builtins);
    var sub := compiler.CompileAst(ast);
    if sub.Err? {
      return Err(sub.kind, sub.message);
    }
    r := Ok(A.Setting("", sub.value));
  }
}
