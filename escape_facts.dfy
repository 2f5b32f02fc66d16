/**
 * The extension's escaper and the Python parser together: the kleenexp
 * the extension builds from selected text parses back into literals that
 * spell that text.
 */
module EscapeFacts {
  import opened Errors
  import opened KeParser
  import opened ParserFacts
  import opened VsCode

  /** What the parser builds from one run of escaped text. */
  function RunTree(run: string): Tree
    requires run != []
  {
    if IsBracket(run[0]) then Braces(Some(Matches([InnerLiteral(run)]))) else OuterLiteral(run)
  }

  function EscapedTrees(s: string): seq<Tree>
    decreases |s|
  {
    if s == [] then [] else [RunTree(s[..RunLength(s)])] + EscapedTrees(s[RunLength(s)..])
  }

  function LiteralsOf(runs: seq<string>): (r: seq<Ast>)
    ensures |r| == |runs| && forall i :: 0 <= i < |r| ==> r[i] == Literal(runs[i])
  {
    if runs == [] then [] else [Literal(runs[0])] + LiteralsOf(runs[1..])
  }

  lemma SliceSplit(t: string, pos: nat, a: string, b: string)
    requires pos <= |t| && t[pos..] == a + b
    ensures pos + |a| <= |t| && t[pos..pos + |a|] == a && t[pos + |a|..] == b
    ensures forall i :: 0 <= i < |a| ==> t[pos + i] == a[i]
  {
    assert forall i :: 0 <= i < |a| ==> t[pos + i] == t[pos..][i];
    assert t[pos + |a|..] == t[pos..][|a|..];
  }

  /** An escaped run of brackets starts with an opening bracket. */
  lemma EscapeStart(s: string)
    requires s != [] && IsBracket(s[0])
    ensures EscapeKleenExpLiteral(s) != [] && EscapeKleenExpLiteral(s)[0] == '['
  {
  }

  /** A run of brackets, escaped, is one brace group holding it quoted. */
  lemma ItemsAtBracketRun(t: string, pos: nat, run: string, next: nat)
    requires run != [] && forall i :: 0 <= i < |run| ==> IsBracket(run[i])
    requires next == pos + |Render(run)| <= |t| && t[pos..next] == Render(run)
    ensures ParseItems(t, pos) == ([RunTree(run)] + ParseItems(t, next).0, ParseItems(t, next).1)
  {
    var r := Render(run);
    assert r == "[\"" + run + "\"]";
    assert forall i :: 0 <= i < |r| ==> t[pos + i] == r[i] by {
      forall i | 0 <= i < |r|
        ensures t[pos + i] == r[i]
      {
        assert t[pos..pos + |r|][i] == t[pos + i];
      }
    }
    assert t[pos + 2..pos + 2 + |run|] == run by {
      forall i | 0 <= i < |run|
        ensures t[pos + 2 + i] == run[i]
      {
        assert r[2 + i] == run[i];
      }
    }
    assert '"' !in run;
    QuotedBraces(t, pos, '"', run);
    ItemsAtBraces(t, pos, RunTree(run), next);
  }

  /** A run of other characters is one outer literal, since escaped text
      after it starts with an opening bracket. */
  lemma ItemsAtTextRun(t: string, pos: nat, run: string, next: nat)
    requires run != [] && forall i :: 0 <= i < |run| ==> !IsBracket(run[i])
    requires next == pos + |run| <= |t| && t[pos..next] == run
    requires next == |t| || t[next] == '['
    ensures ParseItems(t, pos) == ([RunTree(run)] + ParseItems(t, next).0, ParseItems(t, next).1)
  {
    forall i | pos <= i < pos + |run|
      ensures InKind(t[i], OuterChars)
    {
      assert t[i] == t[pos..pos + |run|][i - pos];
    }
    ItemsAtOuter(t, pos, next);
  }

  /** A run of brackets and the items after it. */
  lemma StepBracketRun(t: string, pos: nat, run: string, suffix: string, items: seq<Tree>, next: nat)
    requires run != [] && forall i :: 0 <= i < |run| ==> IsBracket(run[i])
    requires pos <= |t| && t[pos..] == Render(run) + suffix
    requires next == pos + |Render(run)|
    requires ParseItems(t, next) == (items, |t|)
    ensures ParseItems(t, pos) == ([RunTree(run)] + items, |t|)
  {
    SliceSplit(t, pos, Render(run), suffix);
    ItemsAtBracketRun(t, pos, run, next);
  }

  /** A run of other characters and the items after it, which start with
      an opening bracket if there are any. */
  lemma StepTextRun(t: string, pos: nat, run: string, suffix: string, items: seq<Tree>, next: nat)
    requires run != [] && forall i :: 0 <= i < |run| ==> !IsBracket(run[i])
    requires suffix == [] || suffix[0] == '['
    requires pos <= |t| && t[pos..] == run + suffix
    requires next == pos + |run|
    requires ParseItems(t, next) == (items, |t|)
    ensures ParseItems(t, pos) == ([RunTree(run)] + items, |t|)
  {
    SliceSplit(t, pos, run, suffix);
    ItemsAtTextRun(t, pos, run, next);
  }

  /** Escaped text is its first run rendered, then the rest escaped. */
  lemma EscapedNext(t: string, pos: nat, s: string, next: nat)
    requires s != [] && pos <= |t| && t[pos..] == EscapeKleenExpLiteral(s)
    requires next == pos + |Render(s[..RunLength(s)])|
    ensures next <= |t| && t[next..] == EscapeKleenExpLiteral(s[RunLength(s)..])
  {
    var n := RunLength(s);
    SliceSplit(t, pos, Render(s[..n]), EscapeKleenExpLiteral(s[n..]));
  }

  /** The items at pos, given those after the first run. */
  lemma StepRun(t: string, pos: nat, s: string, next: nat)
    requires s != [] && pos <= |t| && t[pos..] == EscapeKleenExpLiteral(s)
    requires next == pos + |Render(s[..RunLength(s)])|
    requires ParseItems(t, next) == (EscapedTrees(s[RunLength(s)..]), |t|)
    ensures ParseItems(t, pos) == (EscapedTrees(s), |t|)
  {
    var n := RunLength(s);
    var run, rest := s[..n], s[n..];
    var suffix, items := EscapeKleenExpLiteral(rest), EscapedTrees(rest);
    assert t[pos..] == Render(run) + suffix;
    assert EscapedTrees(s) == [RunTree(run)] + items;
    assert forall i :: 0 <= i < |run| ==> run[i] == s[i];
    if IsBracket(s[0]) {
      StepBracketRun(t, pos, run, suffix, items, next);
    } else {
      assert Render(run) == run;
      if rest != [] {
        assert rest[0] == s[n];
        EscapeStart(rest);
      }
      StepTextRun(t, pos, run, suffix, items, next);
    }
  }

  /** The top-level items of escaped text are one per run. */
  lemma {:induction false} ItemsOfEscaped(t: string, pos: nat, s: string)
    requires pos <= |t| && t[pos..] == EscapeKleenExpLiteral(s)
    ensures ParseItems(t, pos) == (EscapedTrees(s), |t|)
    decreases |s|
  {
    if s == [] {
      assert ParseBraces(t, |t|).None?;
    } else {
      var next := pos + |Render(s[..RunLength(s)])|;
      EscapedNext(t, pos, s, next);
      ItemsOfEscaped(t, next, s[RunLength(s)..]);
      StepRun(t, pos, s, next);
    }
  }

  lemma {:induction false} VisitEscaped(s: string)
    ensures VisitAll(EscapedTrees(s)) == Ok(LiteralsOf(Runs(s)))
    decreases |s|
  {
    if s != [] {
      var n := RunLength(s);
      VisitEscaped(s[n..]);
      if IsBracket(s[0]) {
        VisitQuoted(s[..n]);
      }
      assert Runs(s)[1..] == Runs(s[n..]);
    }
  }

  lemma {:induction false} FlattenLiterals(nodes: seq<Ast>)
    requires forall i :: 0 <= i < |nodes| ==> nodes[i].Literal?
    ensures Flatten(nodes) == nodes
    decreases |nodes|
  {
    if nodes != [] {
      FlattenLiterals(nodes[..|nodes| - 1]);
      assert nodes[..|nodes| - 1] + [nodes[|nodes| - 1]] == nodes;
    }
  }

  lemma EscapedTree(s: string)
    ensures ParseTree(EscapeKleenExpLiteral(s)) == Ok(Regex(EscapedTrees(s)))
  {
    ItemsOfEscaped(EscapeKleenExpLiteral(s), 0, s);
  }

  /** The top level, given what its children become. */
  lemma VisitRegex(children: seq<Tree>, nodes: seq<Ast>)
    requires VisitAll(children) == Ok(nodes)
    ensures Visit(Regex(children)) == Ok(Concat(Flatten(nodes)))
  {
  }

  lemma VisitEscapedTree(s: string)
    ensures Visit(Regex(EscapedTrees(s))) == Ok(Concat(LiteralsOf(Runs(s))))
  {
    VisitEscaped(s);
    FlattenLiterals(LiteralsOf(Runs(s)));
    VisitRegex(EscapedTrees(s), LiteralsOf(Runs(s)));
  }

  /** The escaped text of s parses to a concatenation of literals, one per
      run of brackets or of other characters, and the literals spell s. */
  lemma ParseEscaped(s: string)
    ensures Parse(EscapeKleenExpLiteral(s)) == Ok(Concat(LiteralsOf(Runs(s))))
    ensures Join(Runs(s)) == s
  {
    EscapedTree(s);
    VisitEscapedTree(s);
    JoinRuns(s);
  }
}
