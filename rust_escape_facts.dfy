/**
 * The extension's escaper and the parser it actually feeds: the extension
 * hands the escaped text to the transpiler built from the Rust crate
 * (vscode/kleenexp/src/extension.ts:105-108), whose parser reads it back as
 * one literal per run of the selected text.
 */
module RustEscapeFacts {
  import opened Errors
  import opened RustParse
  import opened VsCode
  import KeParser
  import ParserFacts
  import RustParseFacts
  import EscapeFacts

  /** The Rust literal for each run, in order. */
  function RustLiterals(runs: seq<string>): (r: seq<Ast>)
    ensures |r| == |runs| && forall i :: 0 <= i < |r| ==> r[i] == Literal(runs[i])
  {
    if runs == [] then [] else [Literal(runs[0])] + RustLiterals(runs[1..])
  }

  lemma SliceOfSlice(t: string, lo: nat, hi: nat, i: nat, j: nat)
    requires lo <= hi <= |t| && i <= j <= hi - lo
    ensures t[lo..hi][i..j] == t[lo + i..lo + j]
  {
    assert forall k :: 0 <= k < j - i ==> t[lo..hi][i..j][k] == t[lo + i + k];
  }

  /** A run of brackets, escaped, is one brace group holding it quoted. */
  lemma BracketRunBraces(t: string, pos: nat, run: string, next: nat)
    requires run != [] && forall i :: 0 <= i < |run| ==> IsBracket(run[i])
    requires next == pos + |Render(run)| <= |t| && t[pos..next] == Render(run)
    ensures t[pos] == '['
    ensures ParseBraces(t, pos) == Some((Literal(run), next))
  {
    assert next == pos + |run| + 4;
    assert t[pos] == '[' && t[pos + 1] == '"' && t[pos + 2..pos + 2 + |run|] == run
        && t[pos + 2 + |run|] == '"' && t[pos + 3 + |run|] == ']' by {
      var u := t[pos..next];
      assert u == ['[', '"'] + run + ['"', ']'];
      assert t[pos] == u[0] && t[pos + 1] == u[1];
      assert t[pos + 2 + |run|] == u[2 + |run|] && t[pos + 3 + |run|] == u[3 + |run|];
      assert u[2..2 + |run|] == run;
      SliceOfSlice(t, pos, next, 2, 2 + |run|);
    }
    assert '"' !in run;
    RustParseFacts.QuotedGroupAt(t, pos, run);
  }

  /** A run of brackets and the items after it. */
  lemma StepBracketRun(t: string, pos: nat, run: string, suffix: string, items: seq<Ast>, next: nat)
    requires run != [] && forall i :: 0 <= i < |run| ==> IsBracket(run[i])
    requires pos <= |t| && t[pos..] == Render(run) + suffix
    requires next == pos + |Render(run)|
    requires ParseItems(t, next) == (items, |t|)
    ensures ParseItems(t, pos) == ([Literal(run)] + items, |t|)
  {
    EscapeFacts.SliceSplit(t, pos, Render(run), suffix);
    BracketRunBraces(t, pos, run, next);
  }

  /** A run of other characters and the items after it, which start with
      an opening bracket if there are any. */
  lemma StepTextRun(t: string, pos: nat, run: string, suffix: string, items: seq<Ast>, next: nat)
    requires run != [] && forall i :: 0 <= i < |run| ==> !IsBracket(run[i])
    requires suffix == [] || suffix[0] == '['
    requires pos <= |t| && t[pos..] == run + suffix
    requires next == pos + |run|
    requires ParseItems(t, next) == (items, |t|)
    ensures ParseItems(t, pos) == ([Literal(run)] + items, |t|)
  {
    EscapeFacts.SliceSplit(t, pos, run, suffix);
    forall i | pos <= i < next
      ensures KeParser.InKind(t[i], KeParser.OuterChars)
    {
      assert t[i] == run[i - pos];
    }
    assert next == |t| || t[next] == suffix[0];
    ParserFacts.RunEndAt(t, pos, next, KeParser.OuterChars);
    assert t[pos..next] == run;
  }

  /** The items at pos, given those after the first run. */
  lemma StepRun(t: string, pos: nat, s: string, next: nat)
    requires s != [] && pos <= |t| && t[pos..] == EscapeKleenExpLiteral(s)
    requires next == pos + |Render(s[..RunLength(s)])|
    requires ParseItems(t, next) == (RustLiterals(Runs(s[RunLength(s)..])), |t|)
    ensures ParseItems(t, pos) == (RustLiterals(Runs(s)), |t|)
  {
    var n := RunLength(s);
    var run, rest := s[..n], s[n..];
    var suffix, items := EscapeKleenExpLiteral(rest), RustLiterals(Runs(rest));
    assert t[pos..] == Render(run) + suffix;
    assert Runs(s) == [run] + Runs(rest);
    assert RustLiterals(Runs(s)) == [Literal(run)] + items by {
      assert ([run] + Runs(rest))[1..] == Runs(rest);
    }
    assert forall i :: 0 <= i < |run| ==> run[i] == s[i];
    if IsBracket(s[0]) {
      StepBracketRun(t, pos, run, suffix, items, next);
    } else {
      assert Render(run) == run;
      if rest != [] {
        assert rest[0] == s[n];
        EscapeFacts.EscapeStart(rest);
      }
      StepTextRun(t, pos, run, suffix, items, next);
    }
  }

  /** The top-level items of escaped text are one literal per run. */
  lemma {:induction false} ItemsOfEscaped(t: string, pos: nat, s: string)
    requires pos <= |t| && t[pos..] == EscapeKleenExpLiteral(s)
    ensures ParseItems(t, pos) == (RustLiterals(Runs(s)), |t|)
    decreases |s|
  {
    if s == [] {
      assert ParseBraces(t, |t|).None?;
    } else {
      var next := pos + |Render(s[..RunLength(s)])|;
      EscapeFacts.EscapedNext(t, pos, s, next);
      ItemsOfEscaped(t, next, s[RunLength(s)..]);
      StepRun(t, pos, s, next);
    }
  }

  /** The escaped text of s parses, in the Rust parser, to the literals of
      its runs (a single run standing alone), and the runs spell s. */
  lemma RustParseEscaped(s: string)
    ensures Parse(EscapeKleenExpLiteral(s)) == Ok(ConcatIfNeeded(RustLiterals(Runs(s))))
    ensures Join(Runs(s)) == s
  {
    ItemsOfEscaped(EscapeKleenExpLiteral(s), 0, s);
    JoinRuns(s);
  }
}
