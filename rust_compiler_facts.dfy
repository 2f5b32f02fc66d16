/**
 * What the Rust back end promises: which ASTs it can render, that the
 * regex of a literal matches exactly that literal, when a literal is
 * wrapped in a group, and what the parser and the back end together make
 * of plain text and of empty braces.
 */
module RustCompilerFacts {
  import opened Errors
  import opened RustCompiler
  import RustParse
  import RustParseFacts
  import KeParser
  import Asm

  // -----------------------------------------------------------------------
  // Which ASTs render (rust/src/compiler.rs:70-83)

  /** Made of concatenations and literals only. */
  predicate Renderable(ast: RustParse.Ast)
    decreases ast
  {
    match ast
    case Concat(items) => forall i :: 0 <= i < |items| ==> Renderable(items[i])
    case Literal(_) => true
    case _ => false
  }

  lemma {:induction false} CompileOk(ast: RustParse.Ast)
    ensures Compile(ast).Ok? <==> Renderable(ast)
    ensures Compile(ast).Err? ==> Compile(ast).kind == Unimplemented
    decreases ast, 1
  {
    if ast.Concat? {
      CompileAllOk(ast.items);
    }
  }

  lemma {:induction false} CompileAllOk(items: seq<RustParse.Ast>)
    ensures CompileAll(items).Ok? <==> forall i :: 0 <= i < |items| ==> Renderable(items[i])
    ensures CompileAll(items).Err? ==> CompileAll(items).kind == Unimplemented
    decreases items, 0
  {
    if items != [] {
      CompileOk(items[0]);
      CompileAllOk(items[1..]);
      assert forall i :: 1 <= i < |items| ==> items[i] == items[1..][i - 1];
    }
  }

  // -----------------------------------------------------------------------
  // Escaping (rust/src/compiler.rs:40-56)

  /** How a regex of literal characters and escapes starts: with one
      escape or one plain character. */
  function FirstPiece(r: string): nat
    requires r != []
  {
    if r[0] == '\\' && |r| >= 2 then 2 else 1
  }

  /** The first piece is an escape of a literal character or a character
      that stands for itself. */
  predicate HeadOk(r: string)
    requires r != []
  {
    if r[0] == '\\' then |r| >= 2 && Asm.EscapedChar(r[1]).Some? else !Asm.IsMeta(r[0])
  }

  /** The character the first piece stands for. */
  function Head(r: string): char
    requires r != [] && HeadOk(r)
  {
    if r[0] == '\\' then Asm.EscapedChar(r[1]).value else r[0]
  }

  lemma UnescapeHead(r: string)
    requires r != [] && Asm.Unescape(r).Some?
    ensures HeadOk(r) && Asm.Unescape(r[FirstPiece(r)..]).Some?
    ensures Asm.Unescape(r) == Some([Head(r)] + Asm.Unescape(r[FirstPiece(r)..]).value)
  {
  }

  lemma UnescapeCons(r: string)
    requires r != [] && HeadOk(r) && Asm.Unescape(r[FirstPiece(r)..]).Some?
    ensures Asm.Unescape(r) == Some([Head(r)] + Asm.Unescape(r[FirstPiece(r)..]).value)
  {
  }

  /** Reading a regex of literal characters and escapes goes piece by
      piece. */
  lemma {:induction false} UnescapeConcat(a: string, b: string)
    requires Asm.Unescape(a).Some? && Asm.Unescape(b).Some?
    ensures Asm.Unescape(a + b) == Some(Asm.Unescape(a).value + Asm.Unescape(b).value)
    decreases |a|
  {
    if a == [] {
      assert a + b == b;
      assert [] + Asm.Unescape(b).value == Asm.Unescape(b).value;
    } else {
      var h := FirstPiece(a);
      UnescapeHead(a);
      assert (a + b)[0] == a[0] && (h == 2 ==> (a + b)[1] == a[1]);
      assert FirstPiece(a + b) == h && HeadOk(a + b) && Head(a + b) == Head(a);
      assert (a + b)[h..] == a[h..] + b;
      UnescapeConcat(a[h..], b);
      UnescapeCons(a + b);
      var x, y := Asm.Unescape(a[h..]).value, Asm.Unescape(b).value;
      assert [Head(a)] + (x + y) == ([Head(a)] + x) + y;
    }
  }

  lemma UnescapeEscapeChar(c: char)
    ensures Asm.Unescape(EscapeChar(c)) == Some([c])
  {
    var r := EscapeChar(c);
    if |r| == 2 {
      assert r[0] == '\\' && Asm.EscapedChar(r[1]) == Some(c);
      assert r[2..] == [] && [c] + [] == [c];
    } else {
      assert r == [c] && !Asm.IsMeta(c);
      assert r[1..] == [] && [c] + [] == [c];
    }
  }

  /** The escaped text is a regex that matches exactly the text. */
  lemma {:induction false} EscapeRoundTrip(s: string)
    ensures Asm.Unescape(Escape(s)) == Some(s)
    decreases |s|
  {
    if s != [] {
      EscapeRoundTrip(s[1..]);
      UnescapeEscapeChar(s[0]);
      UnescapeConcat(EscapeChar(s[0]), Escape(s[1..]));
      assert [s[0]] + s[1..] == s;
    }
  }

  /** As written, `escape` copies a '.', which a regex reads as any
      character: the escaped "." is no literal regex at all. */
  lemma DotNotEscaped(s: string)
    requires s == "."
    ensures EscapeAsWritten(s) == s
    ensures Asm.Unescape(EscapeAsWritten(s)).None?
    ensures Asm.Unescape(Escape(s)) == Some(s)
  {
    assert EscapeAsWritten(s) == EscapeCharAsWritten('.') + EscapeAsWritten([]);
    EscapeRoundTrip(s);
  }

  /** The correction changes nothing for text without a '.'. */
  lemma {:induction false} EscapeAgreesWithoutDots(s: string)
    requires '.' !in s
    ensures EscapeAsWritten(s) == Escape(s)
    decreases |s|
  {
    if s != [] {
      assert s[0] != '.';
      EscapeAgreesWithoutDots(s[1..]);
    }
  }

  // -----------------------------------------------------------------------
  // Rendering (rust/src/compiler.rs:16-37, 58-64)

  /** The text a renderable regex stands for. */
  function TextOf(r: Regexable): string
    decreases r
  {
    match r
    case Literal(s) => s
    case Concat(items) => TextsOf(items)
  }

  function TextsOf(items: seq<Regexable>): string
    decreases items
  {
    if items == [] then "" else TextOf(items[0]) + TextsOf(items[1..])
  }

  /** Unwrapped, the regex matches exactly the text it stands for. */
  lemma {:induction false} RegexMatchesText(r: Regexable)
    ensures Asm.Unescape(ToRegex(r, false)) == Some(TextOf(r))
    decreases r, 1
  {
    match r
    case Literal(s) => EscapeRoundTrip(s);
    case Concat(items) => RenderAllMatchesTexts(items);
  }

  lemma {:induction false} RenderAllMatchesTexts(items: seq<Regexable>)
    ensures Asm.Unescape(RenderAll(items)) == Some(TextsOf(items))
    decreases items, 0
  {
    if items != [] {
      RegexMatchesText(items[0]);
      RenderAllMatchesTexts(items[1..]);
      UnescapeConcat(ToRegex(items[0], false), RenderAll(items[1..]));
    }
  }

  lemma {:induction false} Utf8LengthPositive(s: string)
    ensures Utf8Length(s) >= |s|
    decreases |s|
  {
    if s != [] {
      Utf8LengthPositive(s[1..]);
    }
  }

  /** A string is one byte long exactly when it is one ASCII character. */
  lemma Utf8LengthOne(s: string)
    ensures Utf8Length(s) == 1 <==> |s| == 1 && s[0] as int < 0x80
  {
    if |s| >= 2 {
      Utf8LengthPositive(s);
    } else if |s| == 1 {
      assert s[1..] == [];
    }
  }

  /** Asked to wrap, a literal gets a group unless it is a single ASCII
      character, and a concatenation always does; the group holds the
      unwrapped regex. */
  lemma WrapsUnlessSingleByte(r: Regexable)
    ensures var grouped := r.Concat? || !(|r.s| == 1 && r.s[0] as int < 0x80);
      ToRegex(r, true) == if grouped then "(?:" + ToRegex(r, false) + ")" else ToRegex(r, false)
  {
    if r.Literal? {
      Utf8LengthOne(r.s);
    }
  }

  // -----------------------------------------------------------------------
  // Parser and back end together (rust/src/compiler.rs:66-68,
  // rust/src/parse.rs:31-53)

  /** Unwrapping a single item, as the parser does, does not change the
      regex. */
  lemma SingleItemUnwrapped(items: seq<RustParse.Ast>)
    ensures CompileAst(RustParse.ConcatIfNeeded(items)) == CompileAst(RustParse.Concat(items))
  {
    if |items| == 1 {
      assert items[1..] == [];
      var c := Compile(items[0]);
      if c.Ok? {
        assert CompileAll(items[1..]) == Ok([]);
        assert [c.value] + [] == [c.value];
        assert CompileAll(items) == Ok([c.value]);
        assert [c.value][1..] == [];
        assert RenderAll([c.value]) == ToRegex(c.value, false) + RenderAll([]);
        assert ToRegex(c.value, false) + "" == ToRegex(c.value, false);
      } else {
        assert CompileAll(items) == Err(c.kind, c.message);
      }
    }
  }

  lemma LiteralRegex(s: string)
    ensures CompileAst(RustParse.Literal(s)) == Ok(Escape(s))
  {
  }

  /** Text without brackets becomes its escaped self, a regex matching
      exactly that text. */
  lemma PlainTextRegex(s: string)
    requires s != [] && '[' !in s && ']' !in s
    ensures RustParse.Parse(s).Ok?
    ensures CompileAst(RustParse.Parse(s).value) == Ok(Escape(s))
    ensures Asm.Unescape(Escape(s)) == Some(s)
  {
    RustParseFacts.PlainText(s);
    LiteralRegex(s);
    EscapeRoundTrip(s);
  }

  /** Braces holding only blanks become the empty regex. */
  lemma EmptyBracesRegex(s: string)
    requires |s| >= 2 && s[0] == '[' && s[|s| - 1] == ']'
    requires forall i :: 0 < i < |s| - 1 ==> KeParser.IsWhitespace(s[i])
    ensures RustParse.Parse(s).Ok? && CompileAst(RustParse.Parse(s).value) == Ok("")
  {
    RustParseFacts.EmptyBracesPattern(s);
  }

  /** A quoted literal in braces becomes its escaped text. */
  lemma QuotedRegex(s: string, q: char, text: string)
    requires q == '"' || q == '\''
    requires text != [] && q !in text
    requires s == "[" + [q] + text + [q] + "]"
    ensures RustParse.Parse(s).Ok? && CompileAst(RustParse.Parse(s).value) == Ok(Escape(text))
  {
    RustParseFacts.SingleLiteral(s, q, text);
  }
}
