/**
 * The Rust parser (rust/src/parse.rs), a nom combinator parser for the
 * same bracket syntax. Each rule is a function from a position of the
 * whole input to the value it builds and the position after it, or None
 * when it fails. None of the rules cuts, so every failure is one an
 * enclosing `alt` or repetition recovers from: an `alt` keeps its first
 * alternative that succeeds, a repetition stops at the first item that
 * fails and keeps what it has, and neither is revisited when a later part
 * of the rule fails.
 */
module RustParse {
  import opened Errors
  import KeParser

  /** `Ast` of parse.rs. The parser never builds a Range. */
  datatype Ast =
    | Concat(items: seq<Ast>)
    | Either(items: seq<Ast>)
    | Operator(op: string, name: string, subexpr: Ast)
    | Macro(name: string)
    | Range(start: string, end: string)
    | Literal(s: string)

  /** `Op`: an operator and its name, "" when it has none. */
  datatype Op = Op(op: string, name: string)

  // -----------------------------------------------------------------------
  // Unwrapping single items (rust/src/parse.rs:40-53)

  datatype Wrapper = ConcatWrapper | EitherWrapper

  /** `wrapper_if_needed`: a single item stands for itself, any other
      number is wrapped. */
  function WrapperIfNeeded(wrapper: Wrapper, items: seq<Ast>): (r: Ast)
    ensures |items| == 1 ==> r == items[0]
    ensures |items| != 1 ==> r == (if wrapper == ConcatWrapper then Concat(items) else Either(items))
  {
    if |items| == 1 then items[0]
    else if wrapper == ConcatWrapper then Concat(items)
    else Either(items)
  }

  function ConcatIfNeeded(items: seq<Ast>): Ast {
    WrapperIfNeeded(ConcatWrapper, items)
  }

  function EitherIfNeeded(items: seq<Ast>): Ast {
    WrapperIfNeeded(EitherWrapper, items)
  }

  // -----------------------------------------------------------------------
  // Terminals (rust/src/parse.rs:95-106, 123-171)

  /** `multispace0`: the end of the run of blanks at pos. */
  function MultiSpace(s: string, pos: nat): (e: nat)
    requires pos <= |s|
    ensures pos <= e <= |s|
  {
    KeParser.RunEnd(s, pos, KeParser.WhitespaceChars)
  }

  /** `token`: one or more token characters, as many as there are. */
  function Token(s: string, pos: nat): (r: Option<(string, nat)>)
    requires pos <= |s|
    ensures r.Some? ==> pos < r.value.1 <= |s|
  {
    var e := KeParser.RunEnd(s, pos, KeParser.TokenChars);
    if e == pos then None else Some((s[pos..e], e))
  }

  /** `op = token (':' token)?`, the name "" when no token follows ':'. */
  function ParseOp(s: string, pos: nat): (r: Option<(Op, nat)>)
    requires pos <= |s|
    ensures r.Some? ==> pos < r.value.1 <= |s|
  {
    var op :- Token(s, pos);
    var (text, e) := op;
    if e < |s| && s[e] == ':' && Token(s, e + 1).Some? then
      Some((Op(text, Token(s, e + 1).value.0), Token(s, e + 1).value.1))
    else Some((Op(text, ""), e))
  }

  /** `literal`: non-empty text between two double or two single quotes. */
  function ParseLiteral(s: string, pos: nat): (r: Option<(Ast, nat)>)
    requires pos <= |s|
    ensures r.Some? ==> pos + 3 <= r.value.1 <= |s|
  {
    if pos < |s| && (s[pos] == '"' || s[pos] == '\'') then
      var e := KeParser.RunEnd(s, pos + 1, KeParser.AllBut(s[pos]));
      if e == pos + 1 || e == |s| then None else Some((Literal(s[pos + 1..e]), e + 1))
    else None
  }

  /** `macro_ = '#' token+`; the name leaves the '#' out. */
  function ParseMacro(s: string, pos: nat): (r: Option<(Ast, nat)>)
    requires pos <= |s|
    ensures r.Some? ==> pos + 2 <= r.value.1 <= |s|
  {
    if pos < |s| && s[pos] == '#' then
      var name :- Token(s, pos + 1);
      Some((Macro(name.0), name.1))
    else None
  }

  /** `ops = many1(ws(op))`. */
  function ParseOps(s: string, pos: nat): (r: Option<(seq<Op>, nat)>)
    requires pos <= |s|
    ensures r.Some? ==> pos < r.value.1 <= |s| && |r.value.0| >= 1
  {
    var first :- WsOp(s, pos);
    var (more, e) := MoreOps(s, first.1);
    Some(([first.0] + more, e))
  }

  /** `ws(op)`. */
  function WsOp(s: string, pos: nat): (r: Option<(Op, nat)>)
    requires pos <= |s|
    ensures r.Some? ==> pos < r.value.1 <= |s|
  {
    var op :- ParseOp(s, MultiSpace(s, pos));
    Some((op.0, MultiSpace(s, op.1)))
  }

  function MoreOps(s: string, pos: nat): (r: (seq<Op>, nat))
    requires pos <= |s|
    ensures pos <= r.1 <= |s|
    decreases |s| - pos
  {
    var op := WsOp(s, pos);
    if op.None? then ([], pos)
    else
      var (more, e) := MoreOps(s, op.value.1);
      ([op.value.0] + more, e)
  }

  /** The fold of `ops_then_matches`: `rfold` starts from the matches and
      the last operator and works towards the first. */
  function RFold(ops: seq<Op>, acc: Ast): Ast
    decreases |ops|
  {
    if ops == [] then acc
    else RFold(ops[..|ops| - 1], Operator(ops[|ops| - 1].op, ops[|ops| - 1].name, acc))
  }

  // -----------------------------------------------------------------------
  // The recursive rules (rust/src/parse.rs:55-139)

  /** `braces = '[' ws(either / ops_then_matches / success(Concat([])))
      multispace0 ']'`. */
  function ParseBraces(s: string, pos: nat): (r: Option<(Ast, nat)>)
    requires pos <= |s|
    ensures r.Some? ==> pos + 2 <= r.value.1 <= |s| && s[pos] == '[' && s[r.value.1 - 1] == ']'
    decreases |s| - pos, 0
  {
    if pos < |s| && s[pos] == '[' then
      var (contents, e) := Contents(s, MultiSpace(s, pos + 1));
      var q := MultiSpace(s, e);
      if q < |s| && s[q] == ']' then Some((contents, q + 1)) else None
    else None
  }

  /** The ordered choice inside braces; the last alternative matches
      nothing, so the choice never fails. */
  function Contents(s: string, pos: nat): (r: (Ast, nat))
    requires pos <= |s|
    ensures pos <= r.1 <= |s|
    decreases |s| - pos, 4
  {
    var either := ParseEither(s, pos);
    if either.Some? then either.value
    else
      var opsThenMatches := ParseOpsThenMatches(s, pos);
      if opsThenMatches.Some? then opsThenMatches.value else (Concat([]), pos)
  }

  /** `ops_then_matches = ops matches`, folded with `rfold`. */
  function ParseOpsThenMatches(s: string, pos: nat): (r: Option<(Ast, nat)>)
    requires pos <= |s|
    ensures r.Some? ==> pos < r.value.1 <= |s|
    decreases |s| - pos, 3
  {
    var ops := ParseOps(s, pos);
    if ops.None? then None
    else
      var ms := ParseMatches(s, ops.value.1);
      if ms.None? then None else Some((RFold(ops.value.0, ms.value.0), ms.value.1))
  }

  /** `either = separated_list1(ws('|'), matches)`, unwrapped when there is
      a single branch. */
  function ParseEither(s: string, pos: nat): (r: Option<(Ast, nat)>)
    requires pos <= |s|
    ensures r.Some? ==> pos < r.value.1 <= |s|
    decreases |s| - pos, 3
  {
    var first := ParseMatches(s, pos);
    if first.None? then None
    else
      var (more, e) := MoreBranches(s, first.value.1);
      Some((EitherIfNeeded([first.value.0] + more), e))
  }

  /** The rest of `separated_list1`: a separator and a branch, as long as
      both match; a separator without a branch is left unread. */
  function MoreBranches(s: string, pos: nat): (r: (seq<Ast>, nat))
    requires pos <= |s|
    ensures pos <= r.1 <= |s|
    decreases |s| - pos, 3
  {
    var bar := MultiSpace(s, pos);
    if bar < |s| && s[bar] == '|' then
      var m := ParseMatches(s, MultiSpace(s, bar + 1));
      if m.None? then ([], pos)
      else
        var (more, e) := MoreBranches(s, m.value.1);
        ([m.value.0] + more, e)
    else ([], pos)
  }

  /** `matches = many1(match_)`, unwrapped when there is a single match. */
  function ParseMatches(s: string, pos: nat): (r: Option<(Ast, nat)>)
    requires pos <= |s|
    ensures r.Some? ==> pos < r.value.1 <= |s|
    decreases |s| - pos, 2
  {
    var first := ParseMatch(s, pos);
    if first.None? then None
    else
      var (more, e) := MoreMatches(s, first.value.1);
      Some((ConcatIfNeeded([first.value.0] + more), e))
  }

  function MoreMatches(s: string, pos: nat): (r: (seq<Ast>, nat))
    requires pos <= |s|
    ensures pos <= r.1 <= |s|
    decreases |s| - pos, 2
  {
    var m := ParseMatch(s, pos);
    if m.None? then ([], pos)
    else
      var (more, e) := MoreMatches(s, m.value.1);
      ([m.value.0] + more, e)
  }

  /** `match_ = ws(literal / macro_ / ws(braces))`. */
  function ParseMatch(s: string, pos: nat): (r: Option<(Ast, nat)>)
    requires pos <= |s|
    ensures r.Some? ==> pos < r.value.1 <= |s|
    decreases |s| - pos, 1
  {
    var p := MultiSpace(s, pos);
    var literal := ParseLiteral(s, p);
    var m :=
      if literal.Some? then literal
      else
        var macro := ParseMacro(s, p);
        if macro.Some? then macro else ParseBraces(s, p);
    if m.None? then None else Some((m.value.0, MultiSpace(s, m.value.1)))
  }

  // -----------------------------------------------------------------------
  // The whole pattern (rust/src/parse.rs:31-38)

  /** `many0(outer_literal / braces)` from pos on. */
  function ParseItems(s: string, pos: nat): (r: (seq<Ast>, nat))
    requires pos <= |s|
    ensures pos <= r.1 <= |s|
    decreases |s| - pos
  {
    if pos < |s| && s[pos] != '[' && s[pos] != ']' then
      var e := KeParser.RunEnd(s, pos, KeParser.OuterChars);
      var (more, f) := ParseItems(s, e);
      ([Literal(s[pos..e])] + more, f)
    else
      var b := ParseBraces(s, pos);
      if b.None? then ([], pos)
      else
        var (more, f) := ParseItems(s, b.value.1);
        ([b.value.0] + more, f)
  }

  /** `parse`: the items, unwrapped when there is one; input left over is
      an error. */
  function Parse(s: string): (r: Result<Ast>)
    ensures r.Ok? <==> ParseItems(s, 0).1 == |s|
    ensures r.Ok? ==> r.value == ConcatIfNeeded(ParseItems(s, 0).0)
  {
    var (items, e) := ParseItems(s, 0);
    if e == |s| then Ok(ConcatIfNeeded(items)) else Err(ParseError, "Eof")
  }
}
