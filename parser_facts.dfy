/**
 * What the Python parser promises: the shape of the trees it builds, the
 * order in which operators nest, what empty braces and quoted literals
 * mean, and which inputs it refuses.
 */
module ParserFacts {
  import opened Errors
  import opened KeParser
  import ParseShape

  // -----------------------------------------------------------------------
  // Runs of characters

  /** A run that is known to end at e is the longest run. */
  lemma {:induction false} RunEndAt(s: string, pos: nat, e: nat, kind: CharKind)
    requires pos <= e <= |s|
    requires forall i :: pos <= i < e ==> InKind(s[i], kind)
    requires e == |s| || !InKind(s[e], kind)
    ensures RunEnd(s, pos, kind) == e
    decreases e - pos
  {
    if pos < e {
      RunEndAt(s, pos + 1, e, kind);
    }
  }

  /** A top-level run of plain text is one outer literal. */
  lemma ItemsAtOuter(s: string, pos: nat, e: nat)
    requires pos < e <= |s|
    requires forall i :: pos <= i < e ==> InKind(s[i], OuterChars)
    requires e == |s| || !InKind(s[e], OuterChars)
    ensures ParseItems(s, pos) == ([OuterLiteral(s[pos..e])] + ParseItems(s, e).0, ParseItems(s, e).1)
  {
    RunEndAt(s, pos, e, OuterChars);
  }

  /** A top-level brace group is one item. */
  lemma ItemsAtBraces(s: string, pos: nat, b: Tree, e: nat)
    requires pos < |s| && s[pos] == '['
    requires ParseBraces(s, pos) == Some((b, e))
    ensures ParseItems(s, pos) == ([b] + ParseItems(s, e).0, ParseItems(s, e).1)
  {
  }

  // -----------------------------------------------------------------------
  // Operator chains (ke/parser.py:82-101)

  /** Takes up to n operators off the outside of a node: the inverse of
      FoldOps. */
  function PeelOps(node: Ast, n: nat): (seq<Op>, Ast) {
    if n == 0 || !node.Operator? then ([], node)
    else
      var (ops, body) := PeelOps(node.subregex, n - 1);
      ([Op(node.opName, node.argument)] + ops, body)
  }

  /** The operators of a chain can be read back off the AST in the order
      they were written, the first one outermost, with the body innermost. */
  lemma {:induction false} FoldOpsPeel(ops: seq<Op>, body: Ast)
    ensures PeelOps(FoldOps(ops, body), |ops|) == (ops, body)
    decreases |ops|
  {
    if ops != [] {
      FoldOpsPeel(ops[1..], body);
      assert [Op(ops[0].opName, ops[0].argument)] + ops[1..] == ops;
    }
  }

  /** Two chains fold to the same AST only if they have the same operators
      in the same order and the same body. */
  lemma FoldOpsInjective(ops1: seq<Op>, body1: Ast, ops2: seq<Op>, body2: Ast)
    requires |ops1| == |ops2|
    requires FoldOps(ops1, body1) == FoldOps(ops2, body2)
    ensures ops1 == ops2 && body1 == body2
  {
    FoldOpsPeel(ops1, body1);
    FoldOpsPeel(ops2, body2);
  }

  // -----------------------------------------------------------------------
  // The top level (ke/parser.py:51-58)

  /** A node of the visited children appears in the flattened top level
      exactly when it is a child other than a concatenation or `Nothing`,
      or an item of a child concatenation. */
  lemma {:induction false} FlattenMembers(nodes: seq<Ast>, a: Ast)
    ensures a in Flatten(nodes) <==>
      exists i :: 0 <= i < |nodes| && (if nodes[i].Concat? then a in nodes[i].items else !nodes[i].Nothing? && a == nodes[i])
    decreases |nodes|
  {
    if nodes != [] {
      var init := nodes[..|nodes| - 1];
      FlattenMembers(init, a);
      assert forall i :: 0 <= i < |init| ==> init[i] == nodes[i];
    }
  }

  // -----------------------------------------------------------------------
  // The shape of the AST

  /** Every either has two branches or more, every macro name is '#' and at
      least one more character, every operator has a name and every range
      has alphanumeric endpoints. */
  predicate WellFormed(a: Ast)
    decreases a
  {
    match a
    case Concat(items) => forall i :: 0 <= i < |items| ==> WellFormed(items[i])
    case Either(items) => |items| >= 2 && forall i :: 0 <= i < |items| ==> WellFormed(items[i])
    case Def(name, subregex) => |name| >= 2 && name[0] == '#' && WellFormed(subregex)
    case Operator(opName, _, subregex) => opName != "" && WellFormed(subregex)
    case Macro(name) => |name| >= 2 && name[0] == '#'
    case Range(start, end) => IsAlphanumeric(start) && IsAlphanumeric(end)
    case Literal(_) => true
    case Nothing => true
  }

  lemma {:induction false} FoldOpsWellFormed(ops: seq<Op>, body: Ast)
    requires forall i :: 0 <= i < |ops| ==> ops[i].opName != ""
    requires WellFormed(body)
    ensures WellFormed(FoldOps(ops, body))
    decreases |ops|
  {
    if ops != [] {
      FoldOpsWellFormed(ops[1..], body);
    }
  }

  lemma {:induction false} FlattenWellFormed(nodes: seq<Ast>)
    requires forall i :: 0 <= i < |nodes| ==> WellFormed(nodes[i])
    ensures forall j :: 0 <= j < |Flatten(nodes)| ==> WellFormed(Flatten(nodes)[j])
    decreases |nodes|
  {
    if nodes != [] {
      FlattenWellFormed(nodes[..|nodes| - 1]);
    }
  }

  lemma {:induction false} VisitWellFormed(t: Tree)
    requires TreeWF(t)
    ensures Visit(t).Ok? ==> WellFormed(Visit(t).value)
    decreases t, 1
  {
    match t
    case OuterLiteral(_) =>
    case InnerLiteral(_) =>
    case RangeMacro(_, _) =>
    case NamedMacro(_) =>
    case DefNode(macro, body) =>
      VisitWellFormed(body);
    case Braces(inner) =>
      if inner.Some? {
        VisitWellFormed(inner.value);
      }
    case OpsMatches(ops, operand) =>
      if operand.Some? {
        VisitWellFormed(operand.value);
      }
      if Visit(t).Ok? {
        var b := if operand.None? then Nothing else Visit(operand.value).value;
        FoldOpsWellFormed(ops, b);
      }
    case EitherNode(branches) =>
      VisitAllWellFormed(branches);
    case Matches(parts) =>
      VisitAllWellFormed(parts);
    case Regex(children) =>
      VisitAllWellFormed(children);
      if VisitAll(children).Ok? {
        FlattenWellFormed(VisitAll(children).value);
      }
  }

  lemma {:induction false} VisitAllWellFormed(ts: seq<Tree>)
    requires forall i :: 0 <= i < |ts| ==> TreeWF(ts[i])
    ensures VisitAll(ts).Ok? ==> forall j :: 0 <= j < |VisitAll(ts).value| ==> WellFormed(VisitAll(ts).value[j])
    decreases ts, 0
  {
    if ts != [] {
      VisitWellFormed(ts[0]);
      VisitAllWellFormed(ts[1..]);
    }
  }

  /** Whatever the parser accepts is well formed; in particular every
      either it builds has at least two branches. */
  lemma ParseWellFormed(s: string)
    ensures Parse(s).Ok? ==> WellFormed(Parse(s).value)
  {
    if ParseTree(s).Ok? {
      ParseShape.TreeWellFormed(s);
      VisitWellFormed(ParseTree(s).value);
    }
  }

  // -----------------------------------------------------------------------
  // Braces (ke/parser.py:8, 60-76)

  /** At a closing bracket no rule inside braces matches, no further match
      or branch follows and there is no whitespace to skip. */
  lemma AtClose(s: string, pos: nat)
    requires pos < |s| && s[pos] == ']'
    ensures ParseMatch(s, pos).None? && ParseMatches(s, pos).None?
    ensures ParseInBraces(s, pos).None?
    ensures SkipWhitespace(s, pos) == pos
    ensures MoreMatches(s, pos) == ([], pos) && MoreBranches(s, pos) == ([], pos)
  {
    assert ParseOp(s, pos).None?;
    assert ParseMatch(s, pos).None?;
    RunEndAt(s, pos, pos, WhitespaceChars);
  }

  /** No whitespace, not even the empty one, lies between an opening
      bracket and a character that is neither blank nor '['. */
  lemma NoWhitespaceAfterOpen(s: string, pos: nat)
    requires pos + 1 < |s| && s[pos] == '['
    requires !IsWhitespace(s[pos + 1]) && s[pos + 1] != '['
    ensures SkipWhitespace(s, pos + 1) == pos + 1
  {
    RunEndAt(s, pos + 1, pos + 1, WhitespaceChars);
  }

  /** One match right before a closing bracket is the whole brace content. */
  lemma SingleMatch(s: string, pos: nat, t: Tree, e: nat)
    requires pos < e < |s| && s[e] == ']'
    requires ParseMatch(s, pos) == Some((t, e))
    ensures ParseMatches(s, pos) == Some((Matches([t]), e))
    ensures ParseOp(s, pos).None? ==> ParseInBraces(s, pos) == Some((Matches([t]), e))
  {
    AtClose(s, e);
    assert [t] + [] == [t];
  }

  /** Braces around content that ends right before the closing bracket. */
  lemma BracesAround(s: string, pos: nat, t: Tree, e: nat)
    requires pos + 1 < e < |s| && s[pos] == '[' && s[e] == ']'
    requires !IsWhitespace(s[pos + 1]) && s[pos + 1] != '['
    requires ParseInBraces(s, pos + 1) == Some((t, e))
    ensures ParseBraces(s, pos) == Some((Braces(Some(t)), e + 1))
  {
    NoWhitespaceAfterOpen(s, pos);
    RunEndAt(s, e, e, WhitespaceChars);
    assert SkipWhitespace(s, e) == e;
  }

  /** Brackets holding only whitespace are `Nothing`. */
  lemma EmptyBraces(s: string, pos: nat, w: string)
    requires pos + |w| + 2 <= |s|
    requires s[pos] == '[' && s[pos + 1..pos + 1 + |w|] == w && s[pos + 1 + |w|] == ']'
    requires forall i :: 0 <= i < |w| ==> IsWhitespace(w[i])
    ensures ParseBraces(s, pos) == Some((Braces(None), pos + |w| + 2))
    ensures Visit(Braces(None)) == Ok(Nothing)
  {
    var p := pos + 1 + |w|;
    forall i | pos + 1 <= i < p
      ensures InKind(s[i], WhitespaceChars)
    {
      assert s[i] == w[i - pos - 1];
    }
    RunEndAt(s, pos + 1, p, WhitespaceChars);
    assert SkipWhitespace(s, pos + 1) == p;
    AtClose(s, p);
  }

  lemma VisitSingle(t: Tree)
    requires Visit(t).Ok?
    ensures VisitAll([t]) == Ok([Visit(t).value])
  {
    assert [t][0] == t && [t][1..] == [];
    assert [Visit(t).value] + [] == [Visit(t).value];
  }

  /** An input that is one brace group parses to what the group means,
      spliced into the top-level concatenation. */
  lemma SingleGroup(s: string, b: Tree)
    requires |s| >= 2 && s[0] == '['
    requires ParseBraces(s, 0) == Some((b, |s|))
    requires Visit(b).Ok?
    ensures Parse(s) == Ok(Concat(Contribution(Visit(b).value)))
  {
    assert ParseBraces(s, |s|).None?;
    assert ParseItems(s, |s|) == ([], |s|);
    assert [b] + [] == [b];
    assert ParseItems(s, 0) == ([b], |s|);
    assert ParseTree(s) == Ok(Regex([b]));
    VisitSingle(b);
    var v := Visit(b).value;
    assert [v][..0] == [] && [v][0] == v;
    assert Flatten([v]) == Contribution(v);
    assert Visit(Regex([b])) == Ok(Concat(Flatten([v])));
  }

  /** An input that is one brace group around one match parses to what
      the match means. */
  lemma SingleMatchGroup(s: string, t: Tree)
    requires |s| >= 3 && s[0] == '[' && s[|s| - 1] == ']'
    requires !IsWhitespace(s[1]) && s[1] != '[' && !IsTokenChar(s[1])
    requires ParseMatch(s, 1) == Some((t, |s| - 1))
    requires Visit(t).Ok?
    ensures Parse(s) == Ok(Concat(Contribution(Visit(t).value)))
  {
    SingleMatch(s, 1, t, |s| - 1);
    BracesAround(s, 0, Matches([t]), |s| - 1);
    VisitSingle(t);
    SingleGroup(s, Braces(Some(Matches([t]))));
  }

  /** A brace group holding nothing but whitespace, on its own, parses to
      an empty concatenation. */
  lemma EmptyBracesParse(w: string)
    requires forall i :: 0 <= i < |w| ==> IsWhitespace(w[i])
    ensures Parse("[" + w + "]") == Ok(Concat([]))
  {
    var s := "[" + w + "]";
    assert s[1..1 + |w|] == w;
    EmptyBraces(s, 0, w);
    SingleGroup(s, Braces(None));
  }

  /** A quoted text is an inner literal. */
  lemma Quoted(s: string, pos: nat, q: char, text: string)
    requires q == '\'' || q == '"'
    requires q !in text
    requires pos + |text| + 2 <= |s|
    requires s[pos] == q && s[pos + 1..pos + 1 + |text|] == text && s[pos + 1 + |text|] == q
    ensures ParseMatch(s, pos) == Some((InnerLiteral(text), pos + |text| + 2))
    ensures ParseOp(s, pos).None?
  {
    var e := pos + 1 + |text|;
    forall i | pos + 1 <= i < e
      ensures InKind(s[i], AllBut(q))
    {
      assert s[i] == text[i - pos - 1];
    }
    RunEndAt(s, pos + 1, e, AllBut(q));
    assert ParseInnerLiteral(s, pos) == Some((InnerLiteral(text), e + 1));
  }

  /** A quoted text alone in brackets is that literal. */
  lemma QuotedBraces(s: string, pos: nat, q: char, text: string)
    requires q == '\'' || q == '"'
    requires q !in text
    requires pos + |text| + 4 <= |s|
    requires s[pos] == '[' && s[pos + 1] == q && s[pos + 2..pos + 2 + |text|] == text
    requires s[pos + 2 + |text|] == q && s[pos + 3 + |text|] == ']'
    ensures ParseBraces(s, pos) == Some((Braces(Some(Matches([InnerLiteral(text)]))), pos + |text| + 4))
    ensures Visit(Braces(Some(Matches([InnerLiteral(text)])))) == Ok(Literal(text))
  {
    QuotedInBraces(s, pos + 1, q, text);
    BracesAround(s, pos, Matches([InnerLiteral(text)]), pos + |text| + 3);
    VisitQuoted(text);
  }

  lemma VisitQuoted(text: string)
    ensures Visit(Braces(Some(Matches([InnerLiteral(text)])))) == Ok(Literal(text))
  {
    VisitSingle(InnerLiteral(text));
  }

  lemma QuotedInBraces(s: string, pos: nat, q: char, text: string)
    requires q == '\'' || q == '"'
    requires q !in text
    requires pos + |text| + 3 <= |s|
    requires s[pos] == q && s[pos + 1..pos + 1 + |text|] == text
    requires s[pos + 1 + |text|] == q && s[pos + 2 + |text|] == ']'
    ensures ParseInBraces(s, pos) == Some((Matches([InnerLiteral(text)]), pos + |text| + 2))
  {
    Quoted(s, pos, q, text);
    SingleMatch(s, pos, InnerLiteral(text), pos + |text| + 2);
  }

  // -----------------------------------------------------------------------
  // Examples of the grammar's choices

  /** A quoted literal may be empty. */
  lemma EmptyQuotedLiteral(s: string)
    requires s == "['']"
    ensures Parse(s) == Ok(Concat([Literal("")]))
  {
    QuotedBraces(s, 0, '\'', "");
    SingleGroup(s, Braces(Some(Matches([InnerLiteral("")]))));
  }

  /** A '#' and a token that is not a range is a named macro. */
  lemma NamedMacroAt(s: string, pos: nat, e: nat)
    requires pos + 1 < e <= |s| && s[pos] == '#'
    requires forall i :: pos < i < e ==> IsTokenChar(s[i])
    requires e == |s| || !IsTokenChar(s[e])
    requires !(pos + 4 < |s| && s[pos + 2] == '.')
    ensures ParseMacro(s, pos) == Some((NamedMacro(s[pos..e]), e))
    ensures ParseOp(s, pos).None?
  {
    RunEndAt(s, pos + 1, e, TokenChars);
  }

  /** `def` is tried before `macro`: a macro followed by '=' and a brace
      group is a definition, not a macro use. */
  lemma DefBeforeMacro(s: string, pos: nat, name: string, body: Tree, e: nat)
    requires pos <= |s|
    requires ParseMacro(s, pos).Some? && ParseMacro(s, pos).value.0 == NamedMacro(name)
    requires ParseMacro(s, pos).value.1 < |s| && s[ParseMacro(s, pos).value.1] == '='
    requires ParseBraces(s, ParseMacro(s, pos).value.1 + 1) == Some((body, e))
    ensures ParseMatch(s, pos) == Some((DefNode(NamedMacro(name), body), e))
  {
    assert ParseInnerLiteral(s, pos).None?;
    assert ParseDef(s, pos) == Some((DefNode(NamedMacro(name), body), e));
  }

  lemma DefinitionExampleName(s: string)
    requires s == "[#a=['x']]"
    ensures ParseMacro(s, 1) == Some((NamedMacro("#a"), 3)) && s[3] == '='
  {
    NamedMacroAt(s, 1, 3);
    assert s[1..3] == "#a";
  }

  lemma DefinitionExampleBody(s: string)
    requires s == "[#a=['x']]"
    ensures ParseBraces(s, 4) == Some((Braces(Some(Matches([InnerLiteral("x")]))), 9))
  {
    assert s[6..7] == "x";
    QuotedBraces(s, 4, '\'', "x");
  }

  lemma DefinitionExampleMatch(s: string)
    requires s == "[#a=['x']]"
    ensures ParseMatch(s, 1) == Some((DefNode(NamedMacro("#a"), Braces(Some(Matches([InnerLiteral("x")])))), 9))
  {
    DefinitionExampleName(s);
    DefinitionExampleBody(s);
    DefBeforeMacro(s, 1, "#a", Braces(Some(Matches([InnerLiteral("x")]))), 9);
  }

  /** For example, a definition of '#a' as the literal 'x'. */
  lemma DefinitionExample(s: string)
    requires s == "[#a=['x']]"
    ensures Parse(s) == Ok(Concat([Def("#a", Literal("x"))]))
  {
    var def := DefNode(NamedMacro("#a"), Braces(Some(Matches([InnerLiteral("x")]))));
    DefinitionExampleMatch(s);
    VisitSingle(InnerLiteral("x"));
    assert Visit(def) == Ok(Def("#a", Literal("x")));
    SingleMatchGroup(s, def);
  }
}
