/**
 * The kleenexp parser (ke/parser.py): the PEG grammar, read as a
 * recursive-descent parser over positions of the whole input, which
 * builds a parse tree; and the visitor that turns the parse tree into the
 * AST.
 */
module KeParser {
  import opened Errors

  /** The AST namedtuples and `Nothing`. Macro names keep their leading
      '#'; an operator's `name` (the text after ':') is its argument. */
  datatype Ast =
    | Concat(items: seq<Ast>)
    | Either(items: seq<Ast>)
    | Def(name: string, subregex: Ast)
    | Operator(opName: string, argument: Option<string>, subregex: Ast)
    | Macro(name: string)
    | Range(start: char, end: char)
    | Literal(s: string)
    | Nothing

  // -----------------------------------------------------------------------
  // The character sets of the grammar's regular expressions (ke/parser.py:18-27)

  predicate IsWhitespace(c: char) {
    c in {' ', '\t', '\r', '\n'}
  }

  /** `range_endpoint`. */
  predicate IsAlphanumeric(c: char) {
    'A' <= c <= 'Z' || 'a' <= c <= 'z' || '0' <= c <= '9'
  }

  /** The characters of a `token`; '=', ':', '#', '|', quotes, brackets and
      whitespace are not among them. */
  predicate IsTokenChar(c: char) {
    IsAlphanumeric(c) ||
    c in {'!', '$', '%', '&', '(', ')', '*', '+', ',', '.', '/', ';', '<', '>', '?', '@', '\\', '^', '_', '`', '{', '}', '~', '-'}
  }

  datatype CharKind = WhitespaceChars | TokenChars | OuterChars | AllBut(quote: char)

  predicate InKind(c: char, kind: CharKind) {
    match kind
    case WhitespaceChars => IsWhitespace(c)
    case TokenChars => IsTokenChar(c)
    case OuterChars => c != '[' && c != ']'
    case AllBut(quote) => c != quote
  }

  /** The end of the longest run of characters of one kind starting at pos. */
  function RunEnd(s: string, pos: nat, kind: CharKind): (e: nat)
    requires pos <= |s|
    ensures pos <= e <= |s|
    ensures e < |s| ==> !InKind(s[e], kind)
    decreases |s| - pos
  {
    if pos < |s| && InKind(s[pos], kind) then RunEnd(s, pos + 1, kind) else pos
  }

  /** `whitespace`: a run of blanks, or the empty string right after a ']'
      or right before a '['. */
  function Whitespace(s: string, pos: nat): (r: Option<nat>)
    requires pos <= |s|
    ensures r.Some? ==> pos <= r.value <= |s|
  {
    var e := RunEnd(s, pos, WhitespaceChars);
    if e > pos then Some(e)
    else if pos > 0 && s[pos - 1] == ']' then Some(pos)
    else if pos < |s| && s[pos] == '[' then Some(pos)
    else None
  }

  /** `whitespace?`. */
  function SkipWhitespace(s: string, pos: nat): (e: nat)
    requires pos <= |s|
    ensures pos <= e <= |s|
  {
    if Whitespace(s, pos).Some? then Whitespace(s, pos).value else pos
  }

  // -----------------------------------------------------------------------
  // The parse tree

  /** An operator and its optional name. */
  datatype Op = Op(opName: string, argument: Option<string>)

  /** The nodes of the grammar the visitor gives a meaning to. */
  datatype Tree =
    | OuterLiteral(text: string)
    | InnerLiteral(text: string)
    | RangeMacro(first: char, last: char)
    | NamedMacro(text: string)
    | DefNode(macro: Tree, body: Tree)
    | Braces(inner: Option<Tree>)
    | OpsMatches(ops: seq<Op>, operand: Option<Tree>)
    | EitherNode(branches: seq<Tree>)
    | Matches(parts: seq<Tree>)
    | Regex(children: seq<Tree>)

  /** The shape every parse tree has: a macro name is '#' and a token, a
      range has alphanumeric endpoints, an operator has a name, an either
      has two branches or more and a matches node one match or more. */
  predicate TreeWF(t: Tree)
    decreases t
  {
    match t
    case OuterLiteral(_) => true
    case InnerLiteral(_) => true
    case RangeMacro(first, last) => IsAlphanumeric(first) && IsAlphanumeric(last)
    case NamedMacro(text) => |text| >= 2 && text[0] == '#'
    case DefNode(macro, body) => (macro.RangeMacro? || macro.NamedMacro?) && TreeWF(macro) && TreeWF(body)
    case Braces(inner) => inner.Some? ==> TreeWF(inner.value)
    case OpsMatches(ops, operand) =>
      |ops| >= 1 && (forall i :: 0 <= i < |ops| ==> ops[i].opName != "") &&
      (operand.Some? ==> TreeWF(operand.value))
    case EitherNode(branches) => |branches| >= 2 && forall i :: 0 <= i < |branches| ==> TreeWF(branches[i])
    case Matches(parts) => |parts| >= 1 && forall i :: 0 <= i < |parts| ==> TreeWF(parts[i])
    case Regex(children) => forall i :: 0 <= i < |children| ==> TreeWF(children[i])
  }

  // -----------------------------------------------------------------------
  // The rules without recursion (ke/parser.py:10, 14-21)

  /** `op = token (':' token)?`. */
  function ParseOp(s: string, pos: nat): (r: Option<(Op, nat)>)
    requires pos <= |s|
    ensures r.Some? ==> pos < r.value.1 <= |s|
  {
    var e := RunEnd(s, pos, TokenChars);
    if e == pos then None
    else if e < |s| && s[e] == ':' && RunEnd(s, e + 1, TokenChars) > e + 1 then
      Some((Op(s[pos..e], Some(s[e + 1..RunEnd(s, e + 1, TokenChars)])), RunEnd(s, e + 1, TokenChars)))
    else Some((Op(s[pos..e], None), e))
  }

  /** `macro = '#' (range_macro / token)`. */
  function ParseMacro(s: string, pos: nat): (r: Option<(Tree, nat)>)
    requires pos <= |s|
    ensures r.Some? ==> pos + 2 <= r.value.1 <= |s| && s[pos] == '#'
  {
    if pos < |s| && s[pos] == '#' then
      if pos + 4 < |s| && IsAlphanumeric(s[pos + 1]) && s[pos + 2] == '.' && s[pos + 3] == '.' && IsAlphanumeric(s[pos + 4]) then
        Some((RangeMacro(s[pos + 1], s[pos + 4]), pos + 5))
      else
        var e := RunEnd(s, pos + 1, TokenChars);
        if e == pos + 1 then None else Some((NamedMacro(s[pos..e]), e))
    else None
  }

  /** `inner_literal`: text between two single or two double quotes. */
  function ParseInnerLiteral(s: string, pos: nat): (r: Option<(Tree, nat)>)
    requires pos <= |s|
    ensures r.Some? ==> pos + 2 <= r.value.1 <= |s|
  {
    if pos < |s| && (s[pos] == '\'' || s[pos] == '"') then
      var e := RunEnd(s, pos + 1, AllBut(s[pos]));
      if e < |s| then Some((InnerLiteral(s[pos + 1..e]), e + 1)) else None
    else None
  }

  // -----------------------------------------------------------------------
  // The recursive rules (ke/parser.py:7-16). Each is tried at a position of
  // the whole input, so the zero-width `whitespace` can look back at the
  // character before it. An ordered choice keeps the first alternative that
  // matches, and a repetition is greedy; neither is revisited when a later
  // part of the rule fails.

  /** `braces = '[' whitespace? (ops_matches / either / matches)? whitespace? ']'`. */
  function ParseBraces(s: string, pos: nat): (r: Option<(Tree, nat)>)
    requires pos <= |s|
    ensures r.Some? ==> pos + 2 <= r.value.1 <= |s|
    decreases |s| - pos, 0
  {
    if pos < |s| && s[pos] == '[' then
      var p := SkipWhitespace(s, pos + 1);
      var inner := ParseInBraces(s, p);
      var q := SkipWhitespace(s, if inner.Some? then inner.value.1 else p);
      if q < |s| && s[q] == ']' then
        Some((Braces(if inner.Some? then Some(inner.value.0) else None), q + 1))
      else None
    else None
  }

  function ParseInBraces(s: string, pos: nat): (r: Option<(Tree, nat)>)
    requires pos <= |s|
    ensures r.Some? ==> pos < r.value.1 <= |s|
    decreases |s| - pos, 5
  {
    var ops := ParseOpsMatches(s, pos);
    if ops.Some? then ops
    else
      var either := ParseEither(s, pos);
      if either.Some? then either else ParseMatches(s, pos)
  }

  /** `ops_matches = op (whitespace op)* (whitespace matches)?`. */
  function ParseOpsMatches(s: string, pos: nat): (r: Option<(Tree, nat)>)
    requires pos <= |s|
    ensures r.Some? ==> pos < r.value.1 <= |s|
    decreases |s| - pos, 4
  {
    var first := ParseOp(s, pos);
    if first.None? then None
    else
      var (more, p) := MoreOps(s, first.value.1);
      var w := Whitespace(s, p);
      var body := if w.Some? then ParseMatches(s, w.value) else None;
      if body.Some? then Some((OpsMatches([first.value.0] + more, Some(body.value.0)), body.value.1))
      else Some((OpsMatches([first.value.0] + more, None), p))
  }

  /** `(whitespace op)*`. */
  function MoreOps(s: string, pos: nat): (r: (seq<Op>, nat))
    requires pos <= |s|
    ensures pos <= r.1 <= |s|
    decreases |s| - pos
  {
    var w := Whitespace(s, pos);
    if w.None? then ([], pos)
    else
      var op := ParseOp(s, w.value);
      if op.None? then ([], pos)
      else
        var (more, e) := MoreOps(s, op.value.1);
        ([op.value.0] + more, e)
  }

  /** `either = matches (whitespace? '|' whitespace? matches)+`. */
  function ParseEither(s: string, pos: nat): (r: Option<(Tree, nat)>)
    requires pos <= |s|
    ensures r.Some? ==> pos < r.value.1 <= |s|
    decreases |s| - pos, 4
  {
    var first := ParseMatches(s, pos);
    if first.None? then None
    else
      var (more, e) := MoreBranches(s, first.value.1);
      if more == [] then None else Some((EitherNode([first.value.0] + more), e))
  }

  /** `(whitespace? '|' whitespace? matches)*`. */
  function MoreBranches(s: string, pos: nat): (r: (seq<Tree>, nat))
    requires pos <= |s|
    ensures pos <= r.1 <= |s|
    decreases |s| - pos, 4
  {
    var q := SkipWhitespace(s, pos);
    if q < |s| && s[q] == '|' then
      var m := ParseMatches(s, SkipWhitespace(s, q + 1));
      if m.None? then ([], pos)
      else
        var (more, e) := MoreBranches(s, m.value.1);
        ([m.value.0] + more, e)
    else ([], pos)
  }

  /** `matches = match (whitespace match)*`. */
  function ParseMatches(s: string, pos: nat): (r: Option<(Tree, nat)>)
    requires pos <= |s|
    ensures r.Some? ==> pos < r.value.1 <= |s|
    decreases |s| - pos, 3
  {
    var first := ParseMatch(s, pos);
    if first.None? then None
    else
      var (more, e) := MoreMatches(s, first.value.1);
      Some((Matches([first.value.0] + more), e))
  }

  /** `(whitespace match)*`. */
  function MoreMatches(s: string, pos: nat): (r: (seq<Tree>, nat))
    requires pos <= |s|
    ensures pos <= r.1 <= |s|
    decreases |s| - pos, 3
  {
    var w := Whitespace(s, pos);
    if w.None? then ([], pos)
    else
      var m := ParseMatch(s, w.value);
      if m.None? then ([], pos)
      else
        var (more, e) := MoreMatches(s, m.value.1);
        ([m.value.0] + more, e)
  }

  /** `match = inner_literal / def / macro / braces`. */
  function ParseMatch(s: string, pos: nat): (r: Option<(Tree, nat)>)
    requires pos <= |s|
    ensures r.Some? ==> pos < r.value.1 <= |s|
    decreases |s| - pos, 2
  {
    var literal := ParseInnerLiteral(s, pos);
    if literal.Some? then literal
    else
      var def := ParseDef(s, pos);
      if def.Some? then def
      else
        var macro := ParseMacro(s, pos);
        if macro.Some? then macro else ParseBraces(s, pos)
  }

  /** `def = macro '=' braces`. */
  function ParseDef(s: string, pos: nat): (r: Option<(Tree, nat)>)
    requires pos <= |s|
    ensures r.Some? ==> pos < r.value.1 <= |s|
    decreases |s| - pos, 1
  {
    var macro := ParseMacro(s, pos);
    if macro.None? then None
    else
      var m := macro.value.1;
      if m < |s| && s[m] == '=' then
        var body := ParseBraces(s, m + 1);
        if body.None? then None else Some((DefNode(macro.value.0, body.value.0), body.value.1))
      else None
  }

  /** `regex = (outer_literal / braces)*`, from pos on. */
  function ParseItems(s: string, pos: nat): (r: (seq<Tree>, nat))
    requires pos <= |s|
    ensures pos <= r.1 <= |s|
    decreases |s| - pos
  {
    if pos < |s| && s[pos] != '[' && s[pos] != ']' then
      var e := RunEnd(s, pos, OuterChars);
      var (more, f) := ParseItems(s, e);
      ([OuterLiteral(s[pos..e])] + more, f)
    else
      var b := ParseBraces(s, pos);
      if b.None? then ([], pos)
      else
        var (more, f) := ParseItems(s, b.value.1);
        ([b.value.0] + more, f)
  }

  /** The parse tree of the whole input; input left over is a parse error. */
  function ParseTree(s: string): (r: Result<Tree>)
    ensures r.Ok? <==> ParseItems(s, 0).1 == |s|
    ensures r.Ok? ==> r.value == Regex(ParseItems(s, 0).0)
  {
    var (items, e) := ParseItems(s, 0);
    if e == |s| then Ok(Regex(items)) else Err(ParseError, "Rule 'regex' didn't match the whole input")
  }

  // -----------------------------------------------------------------------
  // The visitor (ke/parser.py:48-146)

  /** What a brace group contributes to the top-level concatenation:
      a concatenation is spliced in and nothing is dropped. */
  function Contribution(node: Ast): (r: seq<Ast>)
    ensures node.Concat? ==> r == node.items
    ensures node.Nothing? ==> r == []
    ensures !node.Concat? && !node.Nothing? ==> r == [node]
  {
    if node.Concat? then node.items else if node.Nothing? then [] else [node]
  }

  /** `visit_regex`: the children with concatenations spliced in. */
  function Flatten(nodes: seq<Ast>): seq<Ast> {
    if nodes == [] then [] else Flatten(nodes[..|nodes| - 1]) + Contribution(nodes[|nodes| - 1])
  }

  /** `visit_ops_matches`: the first operator is the outermost. */
  function FoldOps(ops: seq<Op>, body: Ast): Ast {
    if ops == [] then body else Operator(ops[0].opName, ops[0].argument, FoldOps(ops[1..], body))
  }

  /** `visit_matches`: a single match stands for itself. */
  function MatchesOf(parts: seq<Ast>): Ast
    requires |parts| >= 1
  {
    if |parts| == 1 then parts[0] else Concat(parts)
  }

  function Visit(t: Tree): Result<Ast>
    decreases t
  {
    match t
    case OuterLiteral(text) => Ok(Literal(text))
    case InnerLiteral(text) => Ok(Literal(text))
    case RangeMacro(first, last) => Ok(Range(first, last))
    case NamedMacro(text) => Ok(Macro(text))
    case DefNode(macro, body) =>
      var m :- Visit(macro);
      var b :- Visit(body);
      if m.Macro? then Ok(Def(m.name, b)) else Err(AttributeError, "'Range' object has no attribute 'name'")
    case Braces(inner) => if inner.None? then Ok(Nothing) else Visit(inner.value)
    case OpsMatches(ops, operand) =>
      var b :- if operand.None? then Ok(Nothing) else Visit(operand.value);
      Ok(FoldOps(ops, b))
    case EitherNode(branches) =>
      var bs :- VisitAll(branches);
      Ok(Either(bs))
    case Matches(parts) =>
      var ps :- VisitAll(parts);
      if ps == [] then Ok(Concat([])) else Ok(MatchesOf(ps))
    case Regex(children) =>
      var cs :- VisitAll(children);
      Ok(Concat(Flatten(cs)))
  }

  function VisitAll(ts: seq<Tree>): (r: Result<seq<Ast>>)
    ensures r.Ok? ==> |r.value| == |ts|
    decreases ts
  {
    if ts == [] then Ok([])
    else
      var head :- Visit(ts[0]);
      var tail :- VisitAll(ts[1..]);
      Ok([head] + tail)
  }

  /** `Parser().parse(text)`. */
  function Parse(s: string): (r: Result<Ast>)
    ensures r.Ok? ==> r.value.Concat?
  {
    var tree :- ParseTree(s);
    Visit(tree)
  }

  // -----------------------------------------------------------------------
  // The visitor's loops

  lemma FlattenSnoc(nodes: seq<Ast>, k: nat)
    requires k < |nodes|
    ensures Flatten(nodes[..k + 1]) == Flatten(nodes[..k]) + Contribution(nodes[k])
  {
    assert nodes[..k + 1][..k] == nodes[..k];
  }

  /** `visit_regex`: the loop over the children. */
  method VisitRegex(nodes: seq<Ast>) returns (r: Ast)
    ensures r == Concat(Flatten(nodes))
  {
    var flattened: seq<Ast> := [];
    var k := 0;
    while k < |nodes|
      invariant 0 <= k <= |nodes|
      invariant flattened == Flatten(nodes[..k])
    {
      FlattenSnoc(nodes, k);
      var node := nodes[k];
      if node.Concat? {
        flattened := flattened + node.items;
      } else if !node.Nothing? {
        flattened := flattened + [node];
      }
      k := k + 1;
    }
    assert nodes[..k] == nodes;
    r := Concat(flattened);
  }

  lemma {:induction false} FoldOpsSnoc(ops: seq<Op>, op: Op, body: Ast)
    ensures FoldOps(ops + [op], body) == FoldOps(ops, Operator(op.opName, op.argument, body))
    decreases |ops|
  {
    if ops == [] {
      assert [] + [op] == [op];
    } else {
      assert (ops + [op])[1..] == ops[1..] + [op];
      FoldOpsSnoc(ops[1..], op, body);
    }
  }

  /** `visit_ops_matches`: the operators are collected, then popped from
      the last, each wrapping what has been built so far. */
  method VisitOpsMatches(first: Op, moreOps: seq<Op>, maybeMatches: Option<Ast>) returns (r: Ast)
    ensures r == FoldOps([first] + moreOps, if maybeMatches.Some? then maybeMatches.value else Nothing)
  {
    var ops := [first];
    var i := 0;
    while i < |moreOps|
      invariant 0 <= i <= |moreOps|
      invariant ops == [first] + moreOps[..i]
    {
      assert moreOps[..i + 1] == moreOps[..i] + [moreOps[i]];
      ops := ops + [moreOps[i]];
      i := i + 1;
    }
    assert moreOps[..i] == moreOps;
    var result := if maybeMatches.Some? then maybeMatches.value else Nothing;
    ghost var all := ops;
    while |ops| > 0
      invariant FoldOps(ops, result) == FoldOps(all, if maybeMatches.Some? then maybeMatches.value else Nothing)
      decreases |ops|
    {
      var op := ops[|ops| - 1];
      assert ops == ops[..|ops| - 1] + [op];
      FoldOpsSnoc(ops[..|ops| - 1], op, result);
      ops := ops[..|ops| - 1];
      result := Operator(op.opName, op.argument, result);
    }
    r := result;
  }

  /** `visit_either`: the first branch, then each further one in order. */
  method VisitEither(first: Ast, more: seq<Ast>) returns (r: Result<Ast>)
    ensures more == [] ==> r.Err? && r.kind == AssertionError
    ensures more != [] ==> r == Ok(Either([first] + more))
  {
    if more == [] {
      return Err(AssertionError, "");
    }
    var result := [first];
    var i := 0;
    while i < |more|
      invariant 0 <= i <= |more|
      invariant result == [first] + more[..i]
    {
      assert more[..i + 1] == more[..i] + [more[i]];
      result := result + [more[i]];
      i := i + 1;
    }
    assert more[..i] == more;
    r := Ok(Either(result));
  }

  /** `visit_matches`: a single match is returned unwrapped. */
  method VisitMatches(first: Ast, more: seq<Ast>) returns (r: Ast)
    ensures r == MatchesOf([first] + more)
  {
    if more == [] {
      return first;
    }
    var result := [first];
    var i := 0;
    while i < |more|
      invariant 0 <= i <= |more|
      invariant result == [first] + more[..i]
    {
      assert more[..i + 1] == more[..i] + [more[i]];
      result := result + [more[i]];
      i := i + 1;
    }
    assert more[..i] == more;
    r := Concat(result);
  }
}
