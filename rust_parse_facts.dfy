/**
 * What the Rust parser promises (rust/src/parse.rs and its unit tests):
 * how operators nest, what tokens, operators, macros and quoted literals
 * are, that empty braces are an empty concatenation, and which inputs it
 * refuses. Where the two parsers share a rule, the Rust one is shown to
 * agree with the Python one.
 */
module RustParseFacts {
  import opened Errors
  import opened RustParse
  import KeParser
  import ParserFacts
  import ParseShape

  // -----------------------------------------------------------------------
  // The order of operators (rust/src/parse.rs:68-81)

  /** Operators applied from the outside in: the first one outermost. */
  function Nest(ops: seq<Op>, body: Ast): Ast
    decreases |ops|
  {
    if ops == [] then body else Operator(ops[0].op, ops[0].name, Nest(ops[1..], body))
  }

  lemma {:induction false} NestSnoc(ops: seq<Op>, op: Op, body: Ast)
    ensures Nest(ops + [op], body) == Nest(ops, Operator(op.op, op.name, body))
    decreases |ops|
  {
    if ops != [] {
      assert (ops + [op])[1..] == ops[1..] + [op];
      NestSnoc(ops[1..], op, body);
    }
  }

  /** `rfold` nests the operators so that the first one is outermost and
      the last one applies directly to the matches. */
  lemma {:induction false} RFoldNests(ops: seq<Op>, body: Ast)
    ensures RFold(ops, body) == Nest(ops, body)
    decreases |ops|
  {
    if ops != [] {
      var last := ops[|ops| - 1];
      RFoldNests(ops[..|ops| - 1], Operator(last.op, last.name, body));
      NestSnoc(ops[..|ops| - 1], last, body);
      assert ops[..|ops| - 1] + [last] == ops;
    }
  }

  /** Nesting reads the operators back: every operator chain has exactly
      one body and one list of operators. */
  lemma {:induction false} NestInjective(ops1: seq<Op>, b1: Ast, ops2: seq<Op>, b2: Ast)
    requires |ops1| == |ops2| && Nest(ops1, b1) == Nest(ops2, b2)
    ensures ops1 == ops2 && b1 == b2
    decreases |ops1|
  {
    if ops1 != [] {
      NestInjective(ops1[1..], b1, ops2[1..], b2);
      assert ops1 == [ops1[0]] + ops1[1..] && ops2 == [ops2[0]] + ops2[1..];
    }
  }

  // -----------------------------------------------------------------------
  // Tokens, operators, macros, literals (rust/src/parse.rs:95-106, 141-171)

  /** A token is the longest run of token characters, and there is one
      wherever a token character is. */
  lemma TokenShape(s: string, pos: nat)
    requires pos <= |s|
    ensures Token(s, pos).Some? <==> pos < |s| && KeParser.IsTokenChar(s[pos])
    ensures Token(s, pos).Some? ==>
      var (t, e) := Token(s, pos).value;
      t == s[pos..e] && ParseShape.IsToken(t) && (e == |s| || !KeParser.IsTokenChar(s[e]))
  {
    ParseShape.RunEndRun(s, pos, KeParser.TokenChars);
  }

  /** The two parsers read an operator alike: at the same positions, with
      the same name; an operator without a name has the name "" here and no
      argument in ke/parser.py. */
  lemma OpAgrees(s: string, pos: nat)
    requires pos <= |s|
    ensures ParseOp(s, pos).Some? <==> KeParser.ParseOp(s, pos).Some?
    ensures ParseOp(s, pos).Some? ==>
      var (op, e) := ParseOp(s, pos).value;
      var (pop, pe) := KeParser.ParseOp(s, pos).value;
      e == pe && op.op == pop.opName &&
      op.name == (if pop.argument.Some? then pop.argument.value else "")
  {
  }

  /** An operator starts with a token character, so neither '#' nor ':'
      can begin one. */
  lemma OpsStart(s: string, pos: nat)
    requires pos <= |s|
    ensures ParseOps(s, pos).Some? <==> MultiSpace(s, pos) < |s| && KeParser.IsTokenChar(s[MultiSpace(s, pos)])
    ensures MultiSpace(s, pos) < |s| && s[MultiSpace(s, pos)] in {'#', ':'} ==> ParseOps(s, pos).None?
  {
    OpAgrees(s, MultiSpace(s, pos));
    ParseShape.OpShape(s, MultiSpace(s, pos));
  }

  /** A Rust macro is a Python named macro without its '#'; and where the
      Rust parser finds no macro, the Python one finds none either. */
  lemma MacroAgrees(s: string, pos: nat)
    requires pos <= |s|
    ensures KeParser.ParseMacro(s, pos).Some? && KeParser.ParseMacro(s, pos).value.0.NamedMacro? ==>
      var (m, e) := KeParser.ParseMacro(s, pos).value;
      ParseMacro(s, pos) == Some((Macro(m.text[1..]), e))
    ensures ParseMacro(s, pos).None? ==> KeParser.ParseMacro(s, pos).None?
    ensures ParseMacro(s, pos).Some? <==> pos + 1 < |s| && s[pos] == '#' && KeParser.IsTokenChar(s[pos + 1])
  {
    if pos < |s| && s[pos] == '#' {
      var e := KeParser.RunEnd(s, pos + 1, KeParser.TokenChars);
      assert s[pos..e][1..] == s[pos + 1..e];
    }
  }

  /** A quoted literal is non-empty text up to the next copy of its own
      quote; it may hold brackets and the other quote. */
  lemma LiteralShape(s: string, pos: nat)
    requires pos <= |s|
    ensures ParseLiteral(s, pos).Some? ==>
      var (lit, e) := ParseLiteral(s, pos).value;
      (s[pos] == '"' || s[pos] == '\'') && s[e - 1] == s[pos] &&
      lit == Literal(s[pos + 1..e - 1]) && lit.s != [] && s[pos] !in lit.s
  {
    if pos < |s| && (s[pos] == '"' || s[pos] == '\'') {
      ParseShape.RunEndRun(s, pos + 1, KeParser.AllBut(s[pos]));
      var e := KeParser.RunEnd(s, pos + 1, KeParser.AllBut(s[pos]));
      var text := s[pos + 1..e];
      forall i | 0 <= i < |text|
        ensures text[i] != s[pos]
      {
        assert text[i] == s[pos + 1 + i];
      }
    }
  }

  /** Conversely, a quote, non-empty text without it, and the quote again
      are a literal. */
  lemma LiteralAt(s: string, pos: nat, text: string)
    requires pos + |text| + 2 <= |s| && (s[pos] == '"' || s[pos] == '\'')
    requires text != [] && s[pos] !in text
    requires s[pos + 1..pos + 1 + |text|] == text && s[pos + 1 + |text|] == s[pos]
    ensures ParseLiteral(s, pos) == Some((Literal(text), pos + |text| + 2))
  {
    forall i | pos + 1 <= i < pos + 1 + |text|
      ensures KeParser.InKind(s[i], KeParser.AllBut(s[pos]))
    {
      assert s[i] == text[i - pos - 1];
    }
    ParserFacts.RunEndAt(s, pos + 1, pos + 1 + |text|, KeParser.AllBut(s[pos]));
  }

  /** A match begins, after blanks, with a quote, a '#' or a '['. */
  lemma MatchStart(s: string, pos: nat)
    requires pos <= |s|
    ensures ParseMatch(s, pos).Some? ==>
      MultiSpace(s, pos) < |s| && s[MultiSpace(s, pos)] in {'"', '\'', '#', '['}
  {
  }

  // -----------------------------------------------------------------------
  // Braces (rust/src/parse.rs:55-66, 108-121)

  /** At a closing bracket nothing matches and no blank is skipped. */
  lemma AtClose(s: string, pos: nat)
    requires pos < |s| && s[pos] == ']'
    ensures MultiSpace(s, pos) == pos
    ensures ParseMatch(s, pos).None? && ParseMatches(s, pos).None?
    ensures MoreMatches(s, pos) == ([], pos) && MoreBranches(s, pos) == ([], pos)
    ensures Contents(s, pos) == (Concat([]), pos)
  {
    ParserFacts.RunEndAt(s, pos, pos, KeParser.WhitespaceChars);
    MatchStart(s, pos);
    OpsStart(s, pos);
  }

  /** Brace content followed by blanks and ']' is the whole brace group. */
  lemma BracesAround(s: string, pos: nat, t: Ast, e: nat)
    requires pos < |s| && s[pos] == '['
    requires Contents(s, MultiSpace(s, pos + 1)) == (t, e)
    requires MultiSpace(s, e) < |s| && s[MultiSpace(s, e)] == ']'
    ensures ParseBraces(s, pos) == Some((t, MultiSpace(s, e) + 1))
  {
  }

  /** A single match closed by ']' is the brace content. */
  lemma SingleMatch(s: string, pos: nat, t: Ast, e: nat)
    requires pos <= e < |s| && s[e] == ']'
    requires ParseMatch(s, pos) == Some((t, e))
    ensures ParseMatches(s, pos) == Some((t, e))
    ensures Contents(s, pos) == (t, e)
  {
    AtClose(s, e);
  }

  /** Braces holding only blanks are an empty concatenation. */
  lemma EmptyBraces(s: string, pos: nat, e: nat)
    requires pos < e < |s| && s[pos] == '[' && s[e] == ']'
    requires forall i :: pos < i < e ==> KeParser.IsWhitespace(s[i])
    ensures ParseBraces(s, pos) == Some((Concat([]), e + 1))
  {
    ParserFacts.RunEndAt(s, pos + 1, e, KeParser.WhitespaceChars);
    AtClose(s, e);
  }

  /** `ops_then_matches` puts the first operator outermost and applies
      the last one directly to the matches. */
  lemma OpsThenMatchesNest(s: string, pos: nat)
    requires pos <= |s|
    ensures ParseOpsThenMatches(s, pos).Some? ==>
      var ops := ParseOps(s, pos).value;
      var ms := ParseMatches(s, ops.1).value;
      ParseOpsThenMatches(s, pos).value == (Nest(ops.0, ms.0), ms.1) &&
      ParseOpsThenMatches(s, pos).value.0 == Operator(ops.0[0].op, ops.0[0].name, Nest(ops.0[1..], ms.0))
  {
    var ops := ParseOps(s, pos);
    if ops.Some? {
      var ms := ParseMatches(s, ops.value.1);
      if ms.Some? {
        RFoldNests(ops.value.0, ms.value.0);
      }
    }
  }

  /** Where an operator starts, `either` finds nothing. */
  lemma EitherNotAtOp(s: string, pos: nat)
    requires pos < |s| && KeParser.IsTokenChar(s[pos])
    ensures MultiSpace(s, pos) == pos
    ensures ParseEither(s, pos).None?
    ensures Contents(s, pos) ==
      if ParseOpsThenMatches(s, pos).Some? then ParseOpsThenMatches(s, pos).value else (Concat([]), pos)
  {
    ParserFacts.RunEndAt(s, pos, pos, KeParser.WhitespaceChars);
    MatchStart(s, pos);
  }

  /** Braces whose content starts with an operator hold the operators
      applied to the matches after them, closed right away: the parser
      tries `either` first, which cannot start with an operator, and once
      `ops_then_matches` has matched there is no going back, so a '|'
      after the matches is refused. */
  lemma OpsAndEitherDontMix(s: string, pos: nat)
    requires pos < |s| && s[pos] == '['
    requires MultiSpace(s, pos + 1) < |s| && KeParser.IsTokenChar(s[MultiSpace(s, pos + 1)])
    ensures var p := MultiSpace(s, pos + 1);
      ParseBraces(s, pos).Some? ==>
        ParseOpsThenMatches(s, p).Some? &&
        ParseBraces(s, pos).value.0 == ParseOpsThenMatches(s, p).value.0 &&
        ParseBraces(s, pos).value.0.Operator? &&
        MultiSpace(s, ParseOpsThenMatches(s, p).value.1) < |s| &&
        s[MultiSpace(s, ParseOpsThenMatches(s, p).value.1)] == ']'
  {
    var p := MultiSpace(s, pos + 1);
    EitherNotAtOp(s, p);
    OpsThenMatchesNest(s, p);
  }

  // -----------------------------------------------------------------------
  // The whole pattern (rust/src/parse.rs:31-38)

  /** One brace group spanning the whole pattern is the parse result. */
  lemma WholeGroup(s: string, t: Ast)
    requires ParseBraces(s, 0) == Some((t, |s|))
    ensures Parse(s) == Ok(t)
  {
    assert ParseItems(s, |s|) == ([], |s|);
  }

  /** The empty pattern is an empty concatenation. */
  lemma EmptyPattern(s: string)
    requires s == []
    ensures Parse(s) == Ok(Concat([]))
  {
  }

  /** Text without brackets is one literal. */
  lemma PlainText(s: string)
    requires s != [] && forall i :: 0 <= i < |s| ==> s[i] != '[' && s[i] != ']'
    ensures Parse(s) == Ok(Literal(s))
  {
    ParserFacts.RunEndAt(s, 0, |s|, KeParser.OuterChars);
    assert ParseItems(s, |s|) == ([], |s|);
    assert s[0..|s|] == s;
  }

  /** `[]`, `[ ]` and the like parse to an empty concatenation. */
  lemma EmptyBracesPattern(s: string)
    requires |s| >= 2 && s[0] == '[' && s[|s| - 1] == ']'
    requires forall i :: 0 < i < |s| - 1 ==> KeParser.IsWhitespace(s[i])
    ensures Parse(s) == Ok(Concat([]))
  {
    EmptyBraces(s, 0, |s| - 1);
    WholeGroup(s, Concat([]));
  }

  /** `[#name]` is the macro `name`. */
  lemma SingleMacro(s: string, name: string)
    requires ParseShape.IsToken(name) && s == "[#" + name + "]"
    ensures Parse(s) == Ok(Macro(name))
  {
    var e := |s| - 1;
    assert s[2..e] == name;
    assert MultiSpace(s, 1) == 1 by {
      ParserFacts.RunEndAt(s, 1, 1, KeParser.WhitespaceChars);
    }
    forall i | 2 <= i < e
      ensures KeParser.IsTokenChar(s[i])
    {
      assert s[i] == name[i - 2];
    }
    ParserFacts.RunEndAt(s, 2, e, KeParser.TokenChars);
    AtClose(s, e);
    assert ParseMacro(s, 1) == Some((Macro(name), e));
    SingleMatch(s, 1, Macro(name), e);
    BracesAround(s, 0, Macro(name), e);
    WholeGroup(s, Macro(name));
  }

  /** A quoted literal at p, right before ']', is one match. */
  lemma QuotedMatchAt(s: string, p: nat, text: string)
    requires p + |text| + 3 <= |s| && (s[p] == '"' || s[p] == '\'')
    requires text != [] && s[p] !in text
    requires s[p + 1..p + 1 + |text|] == text && s[p + 1 + |text|] == s[p]
    requires s[p + 2 + |text|] == ']'
    ensures ParseMatch(s, p) == Some((Literal(text), p + |text| + 2))
    ensures Contents(s, MultiSpace(s, p)) == (Literal(text), p + |text| + 2)
  {
    LiteralAt(s, p, text);
    AtClose(s, p + |text| + 2);
    ParserFacts.RunEndAt(s, p, p, KeParser.WhitespaceChars);
    SingleMatch(s, p, Literal(text), p + |text| + 2);
  }

  /** A group holding only a quoted literal, at pos, is that literal. */
  lemma QuotedGroupAt(s: string, pos: nat, text: string)
    requires pos + |text| + 4 <= |s| && s[pos] == '[' && (s[pos + 1] == '"' || s[pos + 1] == '\'')
    requires text != [] && s[pos + 1] !in text
    requires s[pos + 2..pos + 2 + |text|] == text && s[pos + 2 + |text|] == s[pos + 1]
    requires s[pos + 3 + |text|] == ']'
    ensures ParseBraces(s, pos) == Some((Literal(text), pos + |text| + 4))
  {
    var p, close := pos + 1, pos + 3 + |text|;
    assert Contents(s, MultiSpace(s, p)) == (Literal(text), close) by {
      assert s[p + 1..p + 1 + |text|] == text && s[p + 1 + |text|] == s[p] && s[p + 2 + |text|] == ']';
      QuotedMatchAt(s, p, text);
    }
    assert MultiSpace(s, close) == close by {
      ParserFacts.RunEndAt(s, close, close, KeParser.WhitespaceChars);
    }
    BracesAround(s, pos, Literal(text), close);
  }

  /** `['text']` and `["text"]` are the literal text. */
  lemma SingleLiteral(s: string, q: char, text: string)
    requires q == '"' || q == '\''
    requires text != [] && q !in text
    requires s == "[" + [q] + text + [q] + "]"
    ensures Parse(s) == Ok(Literal(text))
  {
    assert s[0] == '[' && s[1] == q && s[2 + |text|] == q && s[3 + |text|] == ']';
    assert s[2..2 + |text|] == text;
    QuotedGroupAt(s, 0, text);
    WholeGroup(s, Literal(text));
  }

  /** A macro closed by ']' is a whole branch. */
  lemma ClosingMacro(s: string, hash: nat)
    requires hash + 2 < |s| && s[hash] == '#' && s[|s| - 1] == ']'
    requires ParseShape.IsToken(s[hash + 1..|s| - 1])
    ensures ParseMatches(s, hash) == Some((Macro(s[hash + 1..|s| - 1]), |s| - 1))
    ensures MoreBranches(s, |s| - 1) == ([], |s| - 1)
  {
    var e := |s| - 1;
    var b := s[hash + 1..e];
    forall i | hash + 1 <= i < e
      ensures KeParser.IsTokenChar(s[i])
    {
      assert s[i] == b[i - hash - 1];
    }
    ParserFacts.RunEndAt(s, hash + 1, e, KeParser.TokenChars);
    ParserFacts.RunEndAt(s, hash, hash, KeParser.WhitespaceChars);
    AtClose(s, e);
    assert ParseMacro(s, hash) == Some((Macro(b), e));
    SingleMatch(s, hash, Macro(b), e);
  }

  /** A bar, one blank and a macro closed by ']' are one more branch. */
  lemma LastMacroBranch(s: string, bar: nat)
    requires bar + 4 < |s| && s[bar] == '|' && s[bar + 1] == ' ' && s[bar + 2] == '#' && s[|s| - 1] == ']'
    requires ParseShape.IsToken(s[bar + 3..|s| - 1])
    ensures MoreBranches(s, bar) == ([Macro(s[bar + 3..|s| - 1])], |s| - 1)
  {
    var b := s[bar + 3..|s| - 1];
    ClosingMacro(s, bar + 2);
    assert MultiSpace(s, bar) == bar && MultiSpace(s, bar + 1) == bar + 2 by {
      ParserFacts.RunEndAt(s, bar, bar, KeParser.WhitespaceChars);
      ParserFacts.RunEndAt(s, bar + 1, bar + 2, KeParser.WhitespaceChars);
    }
    assert [Macro(b)] + [] == [Macro(b)];
  }

  /** After '[', a macro, " | " and a macro closed by ']' are an
      alternation of the two. */
  lemma EitherOfTwoMacros(s: string, bar: nat)
    requires 3 < bar && bar + 4 < |s| && s[1] == '#' && s[bar - 1] == ' '
    requires s[bar] == '|' && s[bar + 1] == ' ' && s[bar + 2] == '#' && s[|s| - 1] == ']'
    requires ParseShape.IsToken(s[2..bar - 1]) && ParseShape.IsToken(s[bar + 3..|s| - 1])
    ensures ParseEither(s, 1) == Some((Either([Macro(s[2..bar - 1]), Macro(s[bar + 3..|s| - 1])]), |s| - 1))
  {
    var a, b := s[2..bar - 1], s[bar + 3..|s| - 1];
    assert ParseMatches(s, 1) == Some((Macro(a), bar)) by {
      forall i | 1 < i < bar - 1
        ensures KeParser.IsTokenChar(s[i])
      {
        assert s[i] == a[i - 2];
      }
      MacroBeforeBar(s, 1, bar - 1, bar);
    }
    assert MoreBranches(s, bar) == ([Macro(b)], |s| - 1) by {
      LastMacroBranch(s, bar);
    }
    assert [Macro(a)] + [Macro(b)] == [Macro(a), Macro(b)];
  }

  /** Two macros in brackets, separated by " | ", with the bar at `bar`. */
  lemma TwoMacroBranchesAt(s: string, bar: nat)
    requires 3 < bar && bar + 4 < |s| && s[0] == '[' && s[1] == '#' && s[bar - 1] == ' '
    requires s[bar] == '|' && s[bar + 1] == ' ' && s[bar + 2] == '#' && s[|s| - 1] == ']'
    requires ParseShape.IsToken(s[2..bar - 1]) && ParseShape.IsToken(s[bar + 3..|s| - 1])
    ensures Parse(s) == Ok(Either([Macro(s[2..bar - 1]), Macro(s[bar + 3..|s| - 1])]))
  {
    var t := Either([Macro(s[2..bar - 1]), Macro(s[bar + 3..|s| - 1])]);
    EitherOfTwoMacros(s, bar);
    assert MultiSpace(s, 1) == 1 by {
      ParserFacts.RunEndAt(s, 1, 1, KeParser.WhitespaceChars);
    }
    AtClose(s, |s| - 1);
    BracesAround(s, 0, t, |s| - 1);
    WholeGroup(s, t);
  }

  /** `[#a | #b]` is the alternation of the two macros, for example
      `[#hello | #world]` gives Either([Macro("hello"), Macro("world")]). */
  lemma TwoMacroBranches(s: string, a: string, b: string)
    requires ParseShape.IsToken(a) && ParseShape.IsToken(b)
    requires s == "[#" + a + " | #" + b + "]"
    ensures Parse(s) == Ok(Either([Macro(a), Macro(b)]))
  {
    var bar := |a| + 3;
    assert s[0] == '[' && s[1] == '#' && s[bar - 1] == ' ' && s[bar] == '|' && s[bar + 1] == ' ';
    assert s[bar + 2] == '#' && s[|s| - 1] == ']';
    assert s[2..bar - 1] == a && s[bar + 3..|s| - 1] == b;
    TwoMacroBranchesAt(s, bar);
  }

  // -----------------------------------------------------------------------
  // Inputs the parser refuses (rust/src/parse.rs tests 211-220)

  /** The top level stops at or before an opening bracket that is never
      closed. */
  lemma {:induction false} StopsAtUnclosed(s: string, pos: nat, k: nat)
    requires pos <= k < |s| && s[k] == '['
    requires forall i :: 0 <= i < |s| ==> s[i] != ']'
    ensures ParseItems(s, pos).1 <= k
    decreases |s| - pos
  {
    if s[pos] != '[' {
      ParseShape.RunEndRun(s, pos, KeParser.OuterChars);
      StopsAtUnclosed(s, KeParser.RunEnd(s, pos, KeParser.OuterChars), k);
    }
  }

  /** A pattern with an opening bracket and no closing one is refused. */
  lemma UnclosedRefused(s: string)
    requires '[' in s && ']' !in s
    ensures Parse(s).Err?
  {
    var k :| 0 <= k < |s| && s[k] == '[';
    StopsAtUnclosed(s, 0, k);
  }

  /** The top level stops at a closing bracket that nothing opened. */
  lemma {:induction false} StopsAtStrayClose(s: string, pos: nat, k: nat)
    requires pos <= k < |s| && s[k] == ']'
    requires forall i :: 0 <= i < k ==> s[i] != '['
    ensures ParseItems(s, pos).1 <= k
    decreases |s| - pos
  {
    if s[pos] != '[' && s[pos] != ']' {
      ParseShape.RunEndRun(s, pos, KeParser.OuterChars);
      StopsAtStrayClose(s, KeParser.RunEnd(s, pos, KeParser.OuterChars), k);
    }
  }

  /** A closing bracket before any opening one is refused. */
  lemma StrayCloseRefused(s: string, k: nat)
    requires k < |s| && s[k] == ']'
    requires forall i :: 0 <= i < k ==> s[i] != '['
    ensures Parse(s).Err?
  {
    StopsAtStrayClose(s, 0, k);
  }

  /** A lone operator without a name, then blanks, then a macro. */
  lemma OneOp(s: string, pos: nat, e: nat, f: nat)
    requires pos < e < f < |s| && s[f] == '#'
    requires forall i :: pos <= i < e ==> KeParser.IsTokenChar(s[i])
    requires forall i :: e <= i < f ==> KeParser.IsWhitespace(s[i])
    requires MultiSpace(s, pos) == pos
    ensures ParseOps(s, pos) == Some(([Op(s[pos..e], "")], f))
  {
    ParserFacts.RunEndAt(s, pos, e, KeParser.TokenChars);
    ParserFacts.RunEndAt(s, e, f, KeParser.WhitespaceChars);
    ParserFacts.RunEndAt(s, f, f, KeParser.WhitespaceChars);
    ParserFacts.RunEndAt(s, f, f, KeParser.TokenChars);
    assert ParseOp(s, pos) == Some((Op(s[pos..e], ""), e));
    assert WsOp(s, pos) == Some((Op(s[pos..e], ""), f));
    assert WsOp(s, f).None?;
    assert MoreOps(s, f) == ([], f);
    assert [Op(s[pos..e], "")] + [] == [Op(s[pos..e], "")];
  }

  /** A macro, then blanks, then '|'. */
  lemma MacroBeforeBar(s: string, pos: nat, e: nat, f: nat)
    requires pos + 1 < e < f < |s| && s[pos] == '#' && s[f] == '|'
    requires forall i :: pos < i < e ==> KeParser.IsTokenChar(s[i])
    requires forall i :: e <= i < f ==> KeParser.IsWhitespace(s[i])
    ensures ParseMatches(s, pos) == Some((Macro(s[pos + 1..e]), f))
  {
    ParserFacts.RunEndAt(s, pos, pos, KeParser.WhitespaceChars);
    ParserFacts.RunEndAt(s, pos + 1, e, KeParser.TokenChars);
    ParserFacts.RunEndAt(s, e, f, KeParser.WhitespaceChars);
    ParserFacts.RunEndAt(s, f, f, KeParser.WhitespaceChars);
    MatchStart(s, f);
  }

  /** For example `[2+ #a | #b]`, which mixes an operator and '|'. */
  lemma OpsThenBarRefused(s: string)
    requires s == "[2+ #a | #b]"
    ensures Parse(s).Err?
  {
    OpsThenBarOp(s);
    OpsThenBarMacro(s);
    OpsAndEitherDontMix(s, 0);
    ParserFacts.RunEndAt(s, 7, 7, KeParser.WhitespaceChars);
    assert ParseOpsThenMatches(s, 1).value.1 == 7;
  }

  /** The operator of `[2+ #a | #b]`. */
  lemma OpsThenBarOp(s: string)
    requires s == "[2+ #a | #b]"
    ensures MultiSpace(s, 1) == 1 && KeParser.IsTokenChar(s[1])
    ensures ParseOps(s, 1) == Some(([Op(s[1..3], "")], 4))
  {
    assert s[1] == '2' && s[2] == '+' && s[3] == ' ' && s[4] == '#';
    ParserFacts.RunEndAt(s, 1, 1, KeParser.WhitespaceChars);
    OneOp(s, 1, 3, 4);
  }

  /** The macro of `[2+ #a | #b]` stops before '|'. */
  lemma OpsThenBarMacro(s: string)
    requires s == "[2+ #a | #b]"
    ensures ParseMatches(s, 4) == Some((Macro(s[5..6]), 7))
  {
    assert s[4] == '#' && s[5] == 'a' && s[6] == ' ' && s[7] == '|';
    MacroBeforeBar(s, 4, 6, 7);
  }
}
