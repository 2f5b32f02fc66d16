/**
 * The builtin macro table of ke/compiler.py: the named nodes written out,
 * the inversions and short names added to them by three loops, and the
 * macros that are themselves defined in kleenexp.
 */
module Builtins {
  import opened Errors
  import A = Asm
  import P = KeParser
  import C = KeCompiler

  type Env = C.Env

  // -----------------------------------------------------------------------
  // The table as written out (ke/compiler.py:23-50)

  const NAMED_MACROS: Env := map[
    "#any" := A.ANY,
    "#newline_character" := A.NEWLINE,
    "#newline" := A.Either([A.NEWLINE, A.Literal("\r\n")]),
    "#not_newline" := A.CharacterClass(A.NEWLINE.items, true),
    "#any_at_all" := A.Either([A.ANY, A.NEWLINE]),
    "#linefeed" := A.LINEFEED,
    "#carriage_return" := A.CARRIAGE_RETURN,
    "#windows_newline" := A.Literal("\r\n"),
    "#tab" := A.TAB,
    "#digit" := A.DIGIT,
    "#letter" := A.LETTER,
    "#lowercase" := A.LOWERCASE,
    "#uppercase" := A.UPPERCASE,
    "#space" := A.SPACE,
    "#token_character" := A.TOKEN_CHARACTER,
    "#start_string" := A.START_STRING,
    "#end_string" := A.END_STRING,
    "#start_line" := A.START_LINE,
    "#end_line" := A.END_LINE,
    "#word_boundary" := A.WORD_BOUNDARY,
    "#quote" := A.Literal("'"),
    "#double_quote" := A.Literal("\""),
    "#left_brace" := A.Literal("["),
    "#right_brace" := A.Literal("]"),
    "#vertical_tab" := A.Literal("\U{000B}"),
    "#formfeed" := A.Literal("\U{000C}"),
    "#bell" := A.Literal("\U{0007}"),
    "#backspace" := A.Literal("\U{0008}")]

  /** `#not_newline` is the inversion of `#newline_character`. */
  lemma NotNewlineInverts()
    ensures A.Invert(NAMED_MACROS["#newline_character"]) == Ok(NAMED_MACROS["#not_newline"])
  {
  }

  // -----------------------------------------------------------------------
  // One update of the table, as each loop body and `add_builtin_macro`
  // make it (ke/compiler.py:51-89, 318-322)

  datatype Step =
    | InvertStep(name: string)
    | ShortStep(long: string, short: string)
    | AliasStep(long: string, short: string)
    | DefineStep(name: string, shortName: Option<string>, definition: string)

  /** `add_builtin_macro`: the definition is parsed and compiled against
      the table, and the result bound under both names. */
  function AddBuiltinMacro(env: Env, long: string, short: Option<string>, definition: string): Result<Env> {
    var ast :- P.Parse(definition);
    var node :- C.CompileF(ast, env);
    var withLong := env[long := node];
    Ok(if short.Some? then withLong[short.value := node] else withLong)
  }

  function Apply(env: Env, step: Step): Result<Env> {
    match step
    case InvertStep(name) =>
      if "#" + name !in env then Err(KeyError, "#" + name)
      else
        var inverted :- A.Invert(env["#" + name]);
        Ok(env["#not_" + name := inverted])
    case ShortStep(long, short) =>
      if "#" + long !in env then Err(KeyError, "#" + long)
      else
        var withShort := env["#" + short := env["#" + long]];
        if "#not_" + long !in withShort then Err(KeyError, "#not_" + long)
        else Ok(withShort["#n" + short := withShort["#not_" + long]])
    case AliasStep(long, short) =>
      if "#" + long !in env then Err(KeyError, "#" + long)
      else Ok(env["#" + short := env["#" + long]])
    case DefineStep(long, short, definition) => AddBuiltinMacro(env, long, short, definition)
  }

  /** The updates in order; the first failure stops them. */
  function Run(env: Env, steps: seq<Step>): Result<Env>
    decreases |steps|
  {
    if steps == [] then Ok(env)
    else
      var t :- Run(env, steps[..|steps| - 1]);
      Apply(t, steps[|steps| - 1])
  }

  // -----------------------------------------------------------------------
  // The four loops (ke/compiler.py:51-89, 325-339)

  const INVERSIONS: seq<Step> := [
    InvertStep("linefeed"), InvertStep("carriage_return"), InvertStep("tab"), InvertStep("digit"),
    InvertStep("letter"), InvertStep("lowercase"), InvertStep("uppercase"), InvertStep("space"),
    InvertStep("token_character"), InvertStep("word_boundary")]

  const SHORT_NAMES: seq<Step> := [
    ShortStep("linefeed", "lf"), ShortStep("carriage_return", "cr"), ShortStep("tab", "t"),
    ShortStep("digit", "d"), ShortStep("letter", "l"), ShortStep("lowercase", "lc"),
    ShortStep("uppercase", "uc"), ShortStep("space", "s"), ShortStep("token_character", "tc"),
    ShortStep("word_boundary", "wb")]

  const ALIASES: seq<Step> := [
    AliasStep("any", "a"), AliasStep("any_at_all", "aaa"), AliasStep("newline", "n"),
    AliasStep("newline_character", "nc"), AliasStep("not_newline", "nn"),
    AliasStep("windows_newline", "crlf"), AliasStep("start_string", "ss"),
    AliasStep("end_string", "es"), AliasStep("start_line", "sl"), AliasStep("end_line", "el"),
    AliasStep("quote", "q"), AliasStep("double_quote", "dq"), AliasStep("left_brace", "lb"),
    AliasStep("right_brace", "rb")]

  const DEFINITIONS: seq<Step> := [
    DefineStep("#integer", Some("#int"), "[[0-1 '-'] [1+ #digit]]"),
    DefineStep("#digits", Some("#uint"), "[1+ #digit]"),
    DefineStep("#decimal", None, "[#int [0-1 '.' #uint]]"),
    DefineStep("#float", None,
      "[[0-1 '-'] [[#uint '.' [0-1 #uint] | '.' #uint] [0-1 #exponent] | #int #exponent] #exponent=[['e' | 'E'] [0-1 ['+' | '-']] #uint]]"),
    DefineStep("#hex_digit", Some("#hexd"), "[#digit | #a..f | #A..F]"),
    DefineStep("#hex_number", Some("#hexn"), "[1+ #hex_digit]"),
    DefineStep("#letters", None, "[1+ #letter]"),
    DefineStep("#token", None, "[#letter | '_'][0+ #token_character]"),
    DefineStep("#capture_0+_any", Some("#c0"), "[capture 0+ #any]"),
    DefineStep("#capture_1+_any", Some("#c1"), "[capture 1+ #any]")]

  /** Three runs of updates, one after the other. */
  function Phases(env: Env, first: seq<Step>, second: seq<Step>, third: seq<Step>): Result<Env> {
    var t1 :- Run(env, first);
    var t2 :- Run(t1, second);
    Run(t2, third)
  }

  /** The table once the three loops have run. */
  function NodeTable(): Result<Env> {
    Phases(NAMED_MACROS, INVERSIONS, SHORT_NAMES, ALIASES)
  }

  /** `builtin_macros` once the module has been loaded. */
  function BuiltinMacros(): Result<Env> {
    var table :- NodeTable();
    Run(table, DEFINITIONS)
  }

  // -----------------------------------------------------------------------
  // Facts about the updates

  lemma PrefixOfPrefix<T>(s: seq<T>, j: nat, k: nat)
    requires k <= j <= |s|
    ensures s[..j][..k] == s[..k]
  {
  }

  lemma RunStep(env: Env, steps: seq<Step>, k: nat)
    requires k < |steps|
    ensures Run(env, steps[..k + 1]) ==
      if Run(env, steps[..k]).Err? then Run(env, steps[..k]) else Apply(Run(env, steps[..k]).value, steps[k])
  {
    PrefixOfPrefix(steps, k + 1, k);
    var p := steps[..k + 1];
    assert p[|p| - 1] == steps[k];
    if Run(env, steps[..k]).Err? {
      var e := Run(env, steps[..k]);
      assert Run(env, p) == Err(e.kind, e.message);
    }
  }

  /** A failure stops the updates: it is the result of the whole run. */
  lemma {:induction false} RunStops(env: Env, steps: seq<Step>, k: nat)
    requires k <= |steps| && Run(env, steps[..k]).Err?
    ensures Run(env, steps) == Run(env, steps[..k])
    decreases |steps| - k
  {
    if k < |steps| {
      RunStep(env, steps, k);
      RunStops(env, steps, k + 1);
    } else {
      assert steps[..k] == steps;
    }
  }

  /** No update removes a name. */
  lemma {:induction false} RunKeepsNames(env: Env, steps: seq<Step>)
    requires Run(env, steps).Ok?
    ensures env.Keys <= Run(env, steps).value.Keys
    decreases |steps|
  {
    if steps != [] {
      RunKeepsNames(env, steps[..|steps| - 1]);
    }
  }

  /** A node of the written-out table, or the inversion of one. */
  predicate Listed(table: Env, n: A.Node) {
    n in table.Values || exists w :: w in table.Values && A.Invert(w) == Ok(n)
  }

  predicate AllListed(table: Env, env: Env) {
    forall key :: key in env ==> Listed(table, env[key])
  }

  /** Inverting a listed node gives a listed node: inverting an inversion
      gives the original back. */
  lemma InvertListed(table: Env, n: A.Node, m: A.Node)
    requires Listed(table, n) && A.Invert(n) == Ok(m)
    ensures Listed(table, m)
  {
    if n !in table.Values {
      var w :| w in table.Values && A.Invert(w) == Ok(n);
      A.InvertInvolution(w);
    }
  }

  lemma ApplyListed(table: Env, env: Env, step: Step)
    requires !step.DefineStep? && AllListed(table, env) && Apply(env, step).Ok?
    ensures AllListed(table, Apply(env, step).value)
  {
    match step
    case InvertStep(name) =>
      InvertListed(table, env["#" + name], A.Invert(env["#" + name]).value);
    case ShortStep(long, short) =>
    case AliasStep(long, short) =>
  }

  /** Inversions, short names and aliases only name nodes of the table
      again, or their inversions. */
  lemma {:induction false} RunListed(table: Env, env: Env, steps: seq<Step>)
    requires NoDefinitions(steps)
    requires AllListed(table, env) && Run(env, steps).Ok?
    ensures AllListed(table, Run(env, steps).value)
    decreases |steps|
  {
    if steps != [] {
      var init := steps[..|steps| - 1];
      assert forall i :: 0 <= i < |init| ==> init[i] == steps[i];
      RunListed(table, env, init);
      ApplyListed(table, Run(env, init).value, steps[|steps| - 1]);
    }
  }

  lemma TableListsItself(table: Env)
    ensures AllListed(table, table)
  {
    forall key | key in table
      ensures Listed(table, table[key])
    {
      assert table[key] in table.Values;
    }
  }

  predicate NoDefinitions(steps: seq<Step>) {
    forall i :: 0 <= i < |steps| ==> !steps[i].DefineStep?
  }

  /** Runs without definitions keep every name and list only nodes of the
      table and their inversions. */
  lemma PhasesListed(env: Env, first: seq<Step>, second: seq<Step>, third: seq<Step>)
    requires NoDefinitions(first) && NoDefinitions(second) && NoDefinitions(third)
    requires Phases(env, first, second, third).Ok?
    ensures AllListed(env, Phases(env, first, second, third).value)
    ensures env.Keys <= Phases(env, first, second, third).value.Keys
  {
    TableListsItself(env);
    var t1 := Run(env, first).value;
    RunListed(env, env, first);
    RunKeepsNames(env, first);
    var t2 := Run(t1, second).value;
    RunListed(env, t1, second);
    RunKeepsNames(t1, second);
    RunListed(env, t2, third);
    RunKeepsNames(t2, third);
  }

  lemma LoopsDefineNothing()
    ensures NoDefinitions(INVERSIONS) && NoDefinitions(SHORT_NAMES) && NoDefinitions(ALIASES)
  {
  }

  /** Every macro of the loops' table is one of the nodes written out, or
      the inversion of one, and every name written out is still there. */
  lemma NodeTableListed()
    requires NodeTable().Ok?
    ensures AllListed(NAMED_MACROS, NodeTable().value)
    ensures NAMED_MACROS.Keys <= NodeTable().value.Keys
  {
    LoopsDefineNothing();
    PhasesListed(NAMED_MACROS, INVERSIONS, SHORT_NAMES, ALIASES);
  }

  /** A definition binds its name, and its short name when it has one, to
      the compiled node, and leaves every other entry as it was: the
      definitions made inside it are not kept. */
  lemma AddBuiltinMacroBinds(env: Env, long: string, short: Option<string>, definition: string)
    requires AddBuiltinMacro(env, long, short, definition).Ok?
    ensures var t := AddBuiltinMacro(env, long, short, definition).value;
      var node := C.CompileF(P.Parse(definition).value, env).value;
      t[long] == node && (short.Some? ==> t[short.value] == node) &&
      t.Keys == env.Keys + {long} + (if short.Some? then {short.value} else {}) &&
      forall key :: key in env && key != long && (short.None? || key != short.value) ==> t[key] == env[key]
  {
  }

  // -----------------------------------------------------------------------
  // Building the table step by step

  /** One loop body: the entry of `macros` updated as the step says. */
  method ApplyStep(macros: Env, step: Step) returns (r: Result<Env>)
    ensures r == Apply(macros, step)
  {
    match step
    case InvertStep(name) =>
      if "#" + name !in macros {
        return Err(KeyError, "#" + name);
      }
      var inverted := A.Invert(macros["#" + name]);
      if inverted.Err? {
        return Err(inverted.kind, inverted.message);
      }
      r := Ok(macros["#not_" + name := inverted.value]);
    case ShortStep(long, short) =>
      if "#" + long !in macros {
        return Err(KeyError, "#" + long);
      }
      var updated := macros["#" + short := macros["#" + long]];
      if "#not_" + long !in updated {
        return Err(KeyError, "#not_" + long);
      }
      r := Ok(updated["#n" + short := updated["#not_" + long]]);
    case AliasStep(long, short) =>
      if "#" + long !in macros {
        return Err(KeyError, "#" + long);
      }
      r := Ok(macros["#" + short := macros["#" + long]]);
    case DefineStep(long, short, definition) =>
      var ast := P.Parse(definition);
      if ast.Err? {
        return Err(ast.kind, ast.message);
      }
      var compiler := new C.Compiler(macros);
      var node := compiler.CompileAst(ast.value);
      if node.Err? {
        return Err(node.kind, node.message);
      }
      var updated := macros[long := node.value];
      if short.Some? {
        updated := updated[short.value := node.value];
      }
      r := Ok(updated);
  }

  /** One of the loops: the steps applied to the table in order. */
  method RunSteps(env: Env, steps: seq<Step>) returns (r: Result<Env>)
    ensures r == Run(env, steps)
  {
    var macros := env;
    var k := 0;
    while k < |steps|
      invariant 0 <= k <= |steps|
      invariant Run(env, steps[..k]) == Ok(macros)
    {
      RunStep(env, steps, k);
      var next := ApplyStep(macros, steps[k]);
      if next.Err? {
        RunStops(env, steps, k + 1);
        return next;
      }
      macros := next.value;
      k := k + 1;
    }
    assert steps[..k] == steps;
    r := Ok(macros);
  }

  /** The loading of the module: the three loops over the written-out
      table, then the definitions in kleenexp. */
  method BuildBuiltinMacros() returns (r: Result<Env>)
    ensures r == BuiltinMacros()
  {
    var inverted := RunSteps(NAMED_MACROS, INVERSIONS);
    if inverted.Err? {
      return Err(inverted.kind, inverted.message);
    }
    var shortened := RunSteps(inverted.value, SHORT_NAMES);
    if shortened.Err? {
      return Err(shortened.kind, shortened.message);
    }
    var table := RunSteps(shortened.value, ALIASES);
    if table.Err? {
      return Err(table.kind, table.message);
    }
    r := RunSteps(table.value, DEFINITIONS);
  }

  /** `compile`: a copy of the builtin table, then the compiler. */
  method CompileWithBuiltins(ast: P.Ast) returns (r: Result<A.Node>)
    ensures BuiltinMacros().Err? ==> r == Err(BuiltinMacros().kind, BuiltinMacros().message)
    ensures BuiltinMacros().Ok? ==> r == C.CompileTop(ast, BuiltinMacros().value)
  {
    var builtins := BuildBuiltinMacros();
    if builtins.Err? {
      return Err(builtins.kind, builtins.message);
    }
    r := C.Compile(ast, builtins.value);
  }
}
