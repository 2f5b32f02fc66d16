/**
 * What the grammar of ke/parser.py guarantees about the parse tree: runs
 * hold only characters of their kind, operator and macro names are tokens,
 * quoted text holds no quote, and every tree the recursive rules build has
 * the shape TreeWF describes.
 */
module ParseShape {
  import opened Errors
  import opened KeParser

  // -----------------------------------------------------------------------
  // Runs and the rules without recursion (ke/parser.py:10, 14-21)

  /** Every character of a run is of the run's kind. */
  lemma {:induction false} RunEndRun(s: string, pos: nat, kind: CharKind)
    requires pos <= |s|
    ensures forall i :: pos <= i < RunEnd(s, pos, kind) ==> InKind(s[i], kind)
    decreases |s| - pos
  {
    if pos < |s| && InKind(s[pos], kind) {
      RunEndRun(s, pos + 1, kind);
    }
  }

  predicate IsToken(t: string) {
    t != [] && forall i :: 0 <= i < |t| ==> IsTokenChar(t[i])
  }

  /** A run of token characters is a token when it is not empty. */
  lemma TokenRun(s: string, pos: nat)
    requires pos <= |s|
    ensures RunEnd(s, pos, TokenChars) > pos <==> pos < |s| && IsTokenChar(s[pos])
    ensures RunEnd(s, pos, TokenChars) > pos ==> IsToken(s[pos..RunEnd(s, pos, TokenChars)])
  {
    var e := RunEnd(s, pos, TokenChars);
    RunEndRun(s, pos, TokenChars);
    assert forall i :: 0 <= i < e - pos ==> s[pos..e][i] == s[pos + i];
  }

  /** `op` matches exactly where a token starts; its name is the whole
      token, and its argument, when there is one, the token after ':'. */
  lemma OpShape(s: string, pos: nat)
    requires pos <= |s|
    ensures ParseOp(s, pos).Some? <==> pos < |s| && IsTokenChar(s[pos])
    ensures ParseOp(s, pos).Some? ==>
      var (op, e) := ParseOp(s, pos).value;
      IsToken(op.opName) && (e == |s| || !IsTokenChar(s[e])) &&
      (op.argument.Some? ==> IsToken(op.argument.value) && s[pos..e] == op.opName + ":" + op.argument.value) &&
      (op.argument.None? ==> s[pos..e] == op.opName)
  {
    var e := RunEnd(s, pos, TokenChars);
    TokenRun(s, pos);
    if e > pos {
      if e < |s| && s[e] == ':' && RunEnd(s, e + 1, TokenChars) > e + 1 {
        var f := RunEnd(s, e + 1, TokenChars);
        TokenRun(s, e + 1);
        assert ParseOp(s, pos) == Some((Op(s[pos..e], Some(s[e + 1..f])), f));
        assert s[pos..f] == s[pos..e] + ":" + s[e + 1..f];
      } else {
        assert ParseOp(s, pos) == Some((Op(s[pos..e], None), e));
      }
    }
  }

  /** A macro is '#' and a token, or a range between two alphanumerics. */
  lemma MacroShape(s: string, pos: nat)
    requires pos <= |s|
    ensures ParseMacro(s, pos).Some? ==>
      var (m, e) := ParseMacro(s, pos).value;
      (m.RangeMacro? ==> e == pos + 5 && s[pos + 1] == m.first && s[pos + 4] == m.last &&
                         IsAlphanumeric(m.first) && IsAlphanumeric(m.last)) &&
      (m.NamedMacro? ==> m.text == s[pos..e] && m.text[0] == '#' && IsToken(m.text[1..])) &&
      (m.RangeMacro? || m.NamedMacro?)
    ensures pos < |s| && s[pos] == '#' && pos + 1 < |s| && IsTokenChar(s[pos + 1]) ==> ParseMacro(s, pos).Some?
  {
    if pos < |s| && s[pos] == '#' {
      RunEndRun(s, pos + 1, TokenChars);
      var e := RunEnd(s, pos + 1, TokenChars);
      assert s[pos..e][1..] == s[pos + 1..e];
    }
  }

  /** A quoted literal is the text between a quote and the next copy of
      the same quote. */
  lemma InnerLiteralShape(s: string, pos: nat)
    requires pos <= |s|
    ensures ParseInnerLiteral(s, pos).Some? ==>
      var (t, e) := ParseInnerLiteral(s, pos).value;
      (s[pos] == '\'' || s[pos] == '"') && s[e - 1] == s[pos] &&
      t == InnerLiteral(s[pos + 1..e - 1]) && s[pos] !in t.text
  {
    if pos < |s| && (s[pos] == '\'' || s[pos] == '"') {
      RunEndRun(s, pos + 1, AllBut(s[pos]));
      var e := RunEnd(s, pos + 1, AllBut(s[pos]));
      var text := s[pos + 1..e];
      forall i | 0 <= i < |text|
        ensures text[i] != s[pos]
      {
        assert text[i] == s[pos + 1 + i];
      }
    }
  }

  // -----------------------------------------------------------------------
  // The recursive rules build well-formed trees (ke/parser.py:7-16)

  predicate AllWF(ts: seq<Tree>) {
    forall i :: 0 <= i < |ts| ==> TreeWF(ts[i])
  }

  lemma AllWFCons(t: Tree, ts: seq<Tree>)
    requires TreeWF(t) && AllWF(ts)
    ensures AllWF([t] + ts)
  {
    forall i | 0 <= i < |[t] + ts|
      ensures TreeWF(([t] + ts)[i])
    {
      if i > 0 {
        assert ([t] + ts)[i] == ts[i - 1];
      }
    }
  }

  lemma {:induction false} MoreOpsNamed(s: string, pos: nat)
    requires pos <= |s|
    ensures forall i :: 0 <= i < |MoreOps(s, pos).0| ==> MoreOps(s, pos).0[i].opName != ""
    decreases |s| - pos
  {
    var w := Whitespace(s, pos);
    if w.Some? && ParseOp(s, w.value).Some? {
      OpShape(s, w.value);
      MoreOpsNamed(s, ParseOp(s, w.value).value.1);
    }
  }

  lemma {:induction false} BracesWF(s: string, pos: nat)
    requires pos <= |s|
    ensures ParseBraces(s, pos).Some? ==> TreeWF(ParseBraces(s, pos).value.0)
    decreases |s| - pos, 0
  {
    if pos < |s| && s[pos] == '[' {
      InBracesWF(s, SkipWhitespace(s, pos + 1));
    }
  }

  lemma {:induction false} InBracesWF(s: string, pos: nat)
    requires pos <= |s|
    ensures ParseInBraces(s, pos).Some? ==> TreeWF(ParseInBraces(s, pos).value.0)
    decreases |s| - pos, 5
  {
    OpsMatchesWF(s, pos);
    EitherWF(s, pos);
    MatchesWF(s, pos);
  }

  lemma {:induction false} OpsMatchesWF(s: string, pos: nat)
    requires pos <= |s|
    ensures ParseOpsMatches(s, pos).Some? ==> TreeWF(ParseOpsMatches(s, pos).value.0)
    decreases |s| - pos, 4
  {
    var first := ParseOp(s, pos);
    if first.Some? {
      OpShape(s, pos);
      var (more, p) := MoreOps(s, first.value.1);
      MoreOpsNamed(s, first.value.1);
      var ops := [first.value.0] + more;
      assert forall i :: 0 <= i < |ops| ==> ops[i].opName != "" by {
        forall i | 0 <= i < |ops|
          ensures ops[i].opName != ""
        {
          if i > 0 {
            assert ops[i] == more[i - 1];
          }
        }
      }
      var w := Whitespace(s, p);
      if w.Some? {
        MatchesWF(s, w.value);
      }
    }
  }

  lemma {:induction false} EitherWF(s: string, pos: nat)
    requires pos <= |s|
    ensures ParseEither(s, pos).Some? ==> TreeWF(ParseEither(s, pos).value.0)
    decreases |s| - pos, 4
  {
    var first := ParseMatches(s, pos);
    if first.Some? {
      MatchesWF(s, pos);
      MoreBranchesWF(s, first.value.1);
      AllWFCons(first.value.0, MoreBranches(s, first.value.1).0);
    }
  }

  lemma {:induction false} MoreBranchesWF(s: string, pos: nat)
    requires pos <= |s|
    ensures AllWF(MoreBranches(s, pos).0)
    decreases |s| - pos, 4
  {
    var q := SkipWhitespace(s, pos);
    if q < |s| && s[q] == '|' {
      var p := SkipWhitespace(s, q + 1);
      var m := ParseMatches(s, p);
      if m.Some? {
        MatchesWF(s, p);
        MoreBranchesWF(s, m.value.1);
        AllWFCons(m.value.0, MoreBranches(s, m.value.1).0);
      }
    }
  }

  lemma {:induction false} MatchesWF(s: string, pos: nat)
    requires pos <= |s|
    ensures ParseMatches(s, pos).Some? ==> TreeWF(ParseMatches(s, pos).value.0)
    decreases |s| - pos, 3
  {
    var first := ParseMatch(s, pos);
    if first.Some? {
      MatchWF(s, pos);
      MoreMatchesWF(s, first.value.1);
      AllWFCons(first.value.0, MoreMatches(s, first.value.1).0);
    }
  }

  lemma {:induction false} MoreMatchesWF(s: string, pos: nat)
    requires pos <= |s|
    ensures AllWF(MoreMatches(s, pos).0)
    decreases |s| - pos, 3
  {
    var w := Whitespace(s, pos);
    if w.Some? {
      var m := ParseMatch(s, w.value);
      if m.Some? {
        MatchWF(s, w.value);
        MoreMatchesWF(s, m.value.1);
        AllWFCons(m.value.0, MoreMatches(s, m.value.1).0);
      }
    }
  }

  lemma {:induction false} MatchWF(s: string, pos: nat)
    requires pos <= |s|
    ensures ParseMatch(s, pos).Some? ==> TreeWF(ParseMatch(s, pos).value.0)
    decreases |s| - pos, 2
  {
    DefWF(s, pos);
    MacroShape(s, pos);
    BracesWF(s, pos);
  }

  lemma {:induction false} DefWF(s: string, pos: nat)
    requires pos <= |s|
    ensures ParseDef(s, pos).Some? ==> TreeWF(ParseDef(s, pos).value.0)
    decreases |s| - pos, 1
  {
    var macro := ParseMacro(s, pos);
    if macro.Some? {
      MacroShape(s, pos);
      var m := macro.value.1;
      if m < |s| && s[m] == '=' {
        BracesWF(s, m + 1);
      }
    }
  }

  /** Every top-level item is well formed. */
  lemma {:induction false} ItemsWF(s: string, pos: nat)
    requires pos <= |s|
    ensures AllWF(ParseItems(s, pos).0)
    decreases |s| - pos
  {
    var next: nat;
    var head: Tree;
    if pos < |s| && s[pos] != '[' && s[pos] != ']' {
      next := RunEnd(s, pos, OuterChars);
      head := OuterLiteral(s[pos..next]);
    } else {
      BracesWF(s, pos);
      if ParseBraces(s, pos).None? {
        return;
      }
      next := ParseBraces(s, pos).value.1;
      head := ParseBraces(s, pos).value.0;
    }
    ItemsWF(s, next);
    assert ParseItems(s, pos).0 == [head] + ParseItems(s, next).0;
    AllWFCons(head, ParseItems(s, next).0);
  }

  /** Every parse tree is well formed. */
  lemma TreeWellFormed(s: string)
    ensures ParseTree(s).Ok? ==> TreeWF(ParseTree(s).value)
  {
    ItemsWF(s, 0);
  }
}
