/**
 * The regex assembly language of kleenexp (ke/asm.py): a tree of nodes that
 * renders to a regular expression string for a given syntax.
 */
module Asm {
  import opened Errors
  import opened Decimal
  import StringSort

  /** An entry of a character class: a single character, a shorthand such as
      `\d`, or an inclusive pair of characters. */
  datatype ClassItem = Text(s: string) | Span(lo: char, hi: char)

  datatype Node =
    | Literal(s: string)
    | Multiple(min: nat, max: Option<nat>, greedy: bool, sub: Node)
    | Either(subs: seq<Node>)
    | Concat(subs: seq<Node>)
    | CharacterClass(items: seq<ClassItem>, inverted: bool)
    | Boundary(character: string, reverse: Option<string>)
    | Capture(name: Option<string>, sub: Node)
    | Setting(setting: string, sub: Node)
      /** A compile error object that was returned instead of raised; it has
          no `to_regex`. */
    | ErrorValue(message: string)

  function MaybeWrap(shouldWrap: bool, regex: string): (r: string)
    ensures shouldWrap ==> r == "(?:" + regex + ")"
    ensures !shouldWrap ==> r == regex
  {
    if shouldWrap then "(?:" + regex + ")" else regex
  }

  // -----------------------------------------------------------------------
  // Escaping a literal (asm.py:17-48)

  /** The characters `re.escape` is adjusted to escape. */
  predicate IsSpecial(c: char) {
    c in {'(', ')', '[', ']', '{', '}', '?', '*', '+', '|', '^', '$', '\\', '.', ' ', '\t', '\n', '\r', '\U{000B}', '\U{000C}'}
  }

  /** The letter that names a control character in an escape. */
  function ControlLetter(c: char): Option<char> {
    if c == '\t' then Some('t')
    else if c == '\n' then Some('n')
    else if c == '\r' then Some('r')
    else if c == '\U{000B}' then Some('v')
    else if c == '\U{000C}' then Some('f')
    else None
  }

  /** What `_special_chars_map` makes of one character. */
  function SpecialImage(c: char): string {
    if IsSpecial(c) then ['\\', c] else [c]
  }

  /** What `_kleen_special_chars_map` makes of one character. */
  function ControlImage(c: char): char {
    if ControlLetter(c).Some? then ControlLetter(c).value else c
  }

  /** `pattern.translate(_special_chars_map)`. */
  function EscapeSpecial(s: string): string {
    if s == [] then "" else SpecialImage(s[0]) + EscapeSpecial(s[1..])
  }

  /** `.translate(_kleen_special_chars_map)`. */
  function TranslateControls(s: string): (r: string)
    ensures |r| == |s|
    ensures forall i :: 0 <= i < |s| ==> r[i] == ControlImage(s[i])
  {
    if s == [] then "" else [ControlImage(s[0])] + TranslateControls(s[1..])
  }

  /** `.replace("\\ ", " ")`, scanning left to right. */
  function UnescapeSpaces(s: string): string {
    if |s| >= 2 && s[0] == '\\' && s[1] == ' ' then " " + UnescapeSpaces(s[2..])
    else if s == [] then ""
    else [s[0]] + UnescapeSpaces(s[1..])
  }

  /** `Literal(s).to_regex` before wrapping. */
  function EscapeLiteral(s: string): string {
    UnescapeSpaces(TranslateControls(EscapeSpecial(s)))
  }

  /** What a single character of a literal becomes. */
  function CharImage(c: char): (r: string)
    ensures |r| >= 1
  {
    if c == ' ' then " "
    else if ControlLetter(c).Some? then ['\\', ControlLetter(c).value]
    else if IsSpecial(c) then ['\\', c]
    else [c]
  }

  function Images(s: string): string {
    if s == [] then "" else CharImage(s[0]) + Images(s[1..])
  }

  lemma {:induction false} TranslateControlsAppend(x: string, y: string)
    ensures TranslateControls(x + y) == TranslateControls(x) + TranslateControls(y)
    decreases |x|
  {
    if x == [] {
      assert x + y == y;
    } else {
      assert (x + y)[0] == x[0];
      assert (x + y)[1..] == x[1..] + y;
      TranslateControlsAppend(x[1..], y);
    }
  }

  /** The escaped text never starts with a bare space. */
  lemma {:induction false} NoLeadingSpace(s: string)
    ensures TranslateControls(EscapeSpecial(s)) == [] || TranslateControls(EscapeSpecial(s))[0] != ' '
  {
    var e := EscapeSpecial(s);
    if s != [] {
      assert e[0] == SpecialImage(s[0])[0];
      assert TranslateControls(e)[0] == ControlImage(e[0]);
    }
  }

  lemma UnescapeSpacesPair(d: char, y: string)
    requires y == [] || y[0] != ' '
    ensures UnescapeSpaces(['\\', d] + y) == (if d == ' ' then " " else ['\\', d]) + UnescapeSpaces(y)
  {
    var t := ['\\', d] + y;
    if d == ' ' {
      assert t[2..] == y;
    } else {
      assert t[1..] == [d] + y;
      assert ([d] + y)[1..] == y;
    }
  }

  lemma UnescapeSpacesSingle(c: char, y: string)
    requires c != '\\'
    ensures UnescapeSpaces([c] + y) == [c] + UnescapeSpaces(y)
  {
    assert ([c] + y)[1..] == y;
  }

  /** The three passes of `Literal.to_regex` escape one character at a time. */
  lemma {:induction false} EscapeLiteralImages(s: string)
    ensures EscapeLiteral(s) == Images(s)
    decreases |s|
  {
    if s != [] {
      var c := s[0];
      var y := TranslateControls(EscapeSpecial(s[1..]));
      TranslateControlsAppend(SpecialImage(c), EscapeSpecial(s[1..]));
      EscapeLiteralImages(s[1..]);
      NoLeadingSpace(s[1..]);
      if IsSpecial(c) {
        assert TranslateControls(SpecialImage(c)) == ['\\', ControlImage(c)];
        UnescapeSpacesPair(ControlImage(c), y);
      } else {
        assert TranslateControls(SpecialImage(c)) == [c];
        UnescapeSpacesSingle(c, y);
      }
    }
  }

  /** A metacharacter that stands for itself only when escaped. */
  predicate IsMeta(c: char) {
    c in {'(', ')', '[', ']', '{', '}', '?', '*', '+', '|', '^', '$', '\\', '.'}
  }

  /** The character that an escape `\e` denotes, if it is an escape of a
      literal character. */
  function EscapedChar(e: char): Option<char> {
    if e == 't' then Some('\t')
    else if e == 'n' then Some('\n')
    else if e == 'r' then Some('\r')
    else if e == 'v' then Some('\U{000B}')
    else if e == 'f' then Some('\U{000C}')
    else if IsSpecial(e) then Some(e)
    else None
  }

  /** The string a regex made only of literal characters and escapes
      matches, or None if it contains any other construct. */
  function Unescape(r: string): Option<string> {
    if r == [] then Some("")
    else if r[0] == '\\' then
      if |r| >= 2 && EscapedChar(r[1]).Some? then
        var rest :- Unescape(r[2..]);
        Some([EscapedChar(r[1]).value] + rest)
      else None
    else if IsMeta(r[0]) then None
    else
      var rest :- Unescape(r[1..]);
      Some([r[0]] + rest)
  }

  lemma UnescapeCharImage(c: char, rest: string)
    ensures Unescape(CharImage(c) + rest) == (if Unescape(rest).Some? then Some([c] + Unescape(rest).value) else None)
  {
    var img := CharImage(c);
    var t := img + rest;
    if |img| == 2 {
      assert img[0] == '\\' && EscapedChar(img[1]) == Some(c);
      assert t[0] == '\\' && t[1] == img[1] && t[2..] == rest;
    } else {
      assert img == [c] && !IsMeta(c);
      assert t[0] == c && t[1..] == rest;
    }
  }

  lemma {:induction false} UnescapeImages(s: string)
    ensures Unescape(Images(s)) == Some(s)
    decreases |s|
  {
    if s != [] {
      UnescapeImages(s[1..]);
      UnescapeCharImage(s[0], Images(s[1..]));
      assert s == [s[0]] + s[1..];
    }
  }

  /** A rendered literal is a regex that matches exactly the literal. */
  lemma {:induction false} EscapeLiteralRoundTrip(s: string)
    ensures Unescape(EscapeLiteral(s)) == Some(s)
  {
    EscapeLiteralImages(s);
    UnescapeImages(s);
  }

  // -----------------------------------------------------------------------
  // Quantifiers (asm.py:51-65)

  /** `self.min or ""`. */
  function OrEmpty(n: nat): string {
    if n == 0 then "" else Str(n)
  }

  function QuantifierOp(min: nat, max: Option<nat>): string {
    if min == 0 && max == None then "*"
    else if min == 1 && max == None then "+"
    else if min == 0 && max == Some(1) then "?"
    else if max == Some(min) then "{" + Str(min) + "}"
    else "{" + OrEmpty(min) + "," + (if max.None? then "" else OrEmpty(max.value)) + "}"
  }

  function Quantifier(min: nat, max: Option<nat>, greedy: bool): string {
    QuantifierOp(min, max) + (if greedy then "" else "?")
  }

  predicate ValidBounds(min: nat, max: Option<nat>) {
    max.None? || min <= max.value
  }

  /** Index of the first c in s, or |s|. */
  function Find(s: string, c: char): (i: nat)
    ensures i <= |s|
    ensures i < |s| ==> s[i] == c
    ensures forall j :: 0 <= j < i ==> s[j] != c
  {
    if s == [] then 0 else if s[0] == c then 0 else 1 + Find(s[1..], c)
  }

  /** The bounds a regex repetition operator (without a lazy mark) denotes. */
  function DecodeOp(q: string): Option<(nat, Option<nat>)> {
    if q == "*" then Some((0, None))
    else if q == "+" then Some((1, None))
    else if q == "?" then Some((0, Some(1)))
    else if |q| >= 2 && q[0] == '{' && q[|q| - 1] == '}' then
      var body := q[1..|q| - 1];
      var k := Find(body, ',');
      if k == |body| then
        if body != [] && AllDigits(body) then Some((Value(body), Some(Value(body)))) else None
      else
        var lo, hi := body[..k], body[k + 1..];
        if AllDigits(lo) && AllDigits(hi) then
          Some((Value(lo), if hi == [] then None else Some(Value(hi))))
        else None
    else None
  }

  /** The bounds and greediness a repetition operator denotes. */
  function DecodeQuantifier(q: string): Option<(nat, Option<nat>, bool)> {
    if |q| >= 2 && q[|q| - 1] == '?' && DecodeOp(q[..|q| - 1]).Some? then
      var (min, max) := DecodeOp(q[..|q| - 1]).value;
      Some((min, max, false))
    else
      var (min, max) :- DecodeOp(q);
      Some((min, max, true))
  }

  lemma {:induction false} OrEmptyDigits(n: nat)
    ensures AllDigits(OrEmpty(n)) && Value(OrEmpty(n)) == n
    ensures (OrEmpty(n) == []) <==> n == 0
  {
    if n > 0 {
      ValueStr(n);
    }
  }

  /** A run of digits, a comma and anything: the comma is the first one. */
  lemma FindAfterDigits(lo: string, rest: string)
    requires AllDigits(lo)
    ensures Find(lo + rest, ',') == |lo| + Find(rest, ',')
    decreases |lo|
  {
    if lo == [] {
      assert lo + rest == rest;
    } else {
      assert (lo + rest)[1..] == lo[1..] + rest;
      assert IsDigit(lo[0]);
      FindAfterDigits(lo[1..], rest);
    }
  }

  /** `{n}` denotes exactly n repetitions. */
  lemma DecodeExact(n: nat)
    ensures DecodeOp("{" + Str(n) + "}") == Some((n, Some(n)))
  {
    var q := "{" + Str(n) + "}";
    assert q[1..|q| - 1] == Str(n);
    FindAfterDigits(Str(n), "");
    assert Str(n) + "" == Str(n);
    ValueStr(n);
  }

  /** `{lo,hi}` with either side possibly empty. */
  lemma DecodeRange(lo: string, hi: string)
    requires AllDigits(lo) && AllDigits(hi)
    ensures DecodeOp("{" + lo + "," + hi + "}") ==
      Some((Value(lo), if hi == [] then None else Some(Value(hi))))
  {
    var q := "{" + lo + "," + hi + "}";
    var body := lo + "," + hi;
    assert |q| >= 2 && q[0] == '{' && q[|q| - 1] == '}';
    assert q[1..|q| - 1] == body;
    assert body == lo + ("," + hi);
    FindAfterDigits(lo, "," + hi);
    assert Find("," + hi, ',') == 0;
    assert Find(body, ',') == |lo| < |body|;
    assert body[..|lo|] == lo && body[|lo| + 1..] == hi;
  }

  lemma {:induction false} DecodeOpRoundTrip(min: nat, max: Option<nat>)
    requires ValidBounds(min, max)
    ensures DecodeOp(QuantifierOp(min, max)) == Some((min, max))
  {
    if min == 0 && max == None {
    } else if min == 1 && max == None {
    } else if min == 0 && max == Some(1) {
    } else if max == Some(min) {
      DecodeExact(min);
    } else {
      OrEmptyDigits(min);
      if max.Some? {
        OrEmptyDigits(max.value);
        DecodeRange(OrEmpty(min), OrEmpty(max.value));
      } else {
        DecodeRange(OrEmpty(min), "");
      }
    }
  }

  /** Only the one-character "?" operator ends in '?'. */
  lemma QuantifierOpEnd(min: nat, max: Option<nat>)
    ensures var op := QuantifierOp(min, max); |op| >= 1 && (|op| < 2 || op[|op| - 1] == '}')
  {
  }

  /** The operator `Multiple.to_regex` appends denotes exactly the node's
      bounds and greediness. */
  lemma {:induction false} QuantifierRoundTrip(min: nat, max: Option<nat>, greedy: bool)
    requires ValidBounds(min, max)
    ensures DecodeQuantifier(Quantifier(min, max, greedy)) == Some((min, max, greedy))
  {
    var op := QuantifierOp(min, max);
    var q := Quantifier(min, max, greedy);
    DecodeOpRoundTrip(min, max);
    QuantifierOpEnd(min, max);
    if greedy {
      assert q == op;
    } else {
      assert q[..|q| - 1] == op;
    }
  }

  /** An upper bound of zero below a positive lower bound is rendered as
      "no upper bound". */
  lemma ZeroMaxRendersUnbounded(min: nat)
    requires min > 0
    ensures DecodeQuantifier(Quantifier(min, Some(0), true)) == Some((min, None, true))
  {
    OrEmptyDigits(min);
    DecodeRange(Str(min), "");
    assert Quantifier(min, Some(0), true) == "{" + Str(min) + "," + "" + "}";
  }

  // -----------------------------------------------------------------------
  // Character classes (asm.py:86-140)

  /** `_char_escapes`, keyed by a one-character string. */
  function CharEscape(s: string): Option<string> {
    if |s| == 1 && ControlLetter(s[0]).Some? then Some(['\\', ControlLetter(s[0]).value]) else None
  }

  /** Python's `s in t` on strings. */
  predicate IsSubstring(s: string, t: string) {
    s <= t || (t != [] && IsSubstring(s, t[1..]))
  }

  lemma {:induction false} IsSubstringSingle(c: char, t: string)
    ensures IsSubstring([c], t) <==> c in t
    decreases |t|
  {
    if t != [] {
      IsSubstringSingle(c, t[1..]);
      assert t == [t[0]] + t[1..];
    }
  }

  /** `c in NEED_ESCAPING`. */
  predicate NeedsEscaping(s: string) {
    IsSubstring(s, "^-[]\\")
  }

  /** `escape_char`. */
  function EscapeClassChar(s: string): string {
    if CharEscape(s).Some? then CharEscape(s).value
    else if NeedsEscaping(s) then "\\" + s
    else s
  }

  function ItemText(item: ClassItem): string {
    match item
    case Text(s) => EscapeClassChar(s)
    case Span(lo, hi) => EscapeClassChar([lo]) + "-" + EscapeClassChar([hi])
  }

  function ItemTexts(items: seq<ClassItem>): (r: seq<string>)
    ensures |r| == |items|
  {
    if items == [] then [] else [ItemText(items[0])] + ItemTexts(items[1..])
  }

  /** `join_characters`. */
  function JoinCharacters(items: seq<ClassItem>): string {
    StringSort.Concat(StringSort.Sort(ItemTexts(items)))
  }

  predicate IsDswShorthand(s: string) {
    |s| == 2 && s[0] == '\\' && (s[1] == 'd' || s[1] == 's' || s[1] == 'w')
  }

  /** `c.upper()` on the letter of a `\d`, `\s` or `\w` shorthand. */
  function ShorthandUpper(c: char): char {
    if c == 'd' then 'D' else if c == 's' then 'S' else 'W'
  }

  function ClassRegex(items: seq<ClassItem>, inverted: bool, syntax: string): string {
    if |items| == 0 then
      if inverted then "." else "(?!)."
    else if |items| == 1 && items[0].Text? && !inverted then
      var c := items[0].s;
      if |c| == 1 then
        if CharEscape(c).Some? then CharEscape(c).value else EscapeLiteral(c)
      else c
    else if |items| == 1 && items[0].Text? && IsDswShorthand(items[0].s) then
      "\\" + [ShorthandUpper(items[0].s[1])]
    else
      "[" + (if inverted then "^" else "") + JoinCharacters(items) + "]"
  }

  lemma {:induction false} ItemTextsAppend(x: seq<ClassItem>, y: seq<ClassItem>)
    ensures ItemTexts(x + y) == ItemTexts(x) + ItemTexts(y)
    decreases |x|
  {
    if x == [] {
      assert x + y == y;
    } else {
      assert (x + y)[0] == x[0];
      assert (x + y)[1..] == x[1..] + y;
      ItemTextsAppend(x[1..], y);
    }
  }

  /** Removing the element at k from a permutation of x :: xs' leaves a
      permutation of xs'. */
  lemma RemoveAt<T>(xs: seq<T>, ys: seq<T>, k: nat)
    requires xs != [] && k < |ys| && ys[k] == xs[0] && multiset(xs) == multiset(ys)
    ensures multiset(xs[1..]) == multiset(ys[..k] + ys[k + 1..])
  {
    var x := xs[0];
    assert xs == [x] + xs[1..];
    assert ys == ys[..k] + [x] + ys[k + 1..];
    forall e ensures multiset(xs[1..])[e] == multiset(ys[..k] + ys[k + 1..])[e] {
      assert multiset(xs)[e] == multiset{x}[e] + multiset(xs[1..])[e];
      assert multiset(ys)[e] == multiset(ys[..k])[e] + multiset{x}[e] + multiset(ys[k + 1..])[e];
    }
  }

  lemma MultisetSplice<T>(a: seq<T>, t: T, b: seq<T>)
    ensures multiset(a + ([t] + b)) == multiset{t} + multiset(a + b)
  {
  }

  lemma ItemTextsAround(front: seq<ClassItem>, x: ClassItem, back: seq<ClassItem>)
    ensures ItemTexts(front + ([x] + back)) == ItemTexts(front) + ([ItemText(x)] + ItemTexts(back))
    ensures ItemTexts(front + back) == ItemTexts(front) + ItemTexts(back)
  {
    ItemTextsAppend(front, [x] + back);
    ItemTextsAppend([x], back);
    ItemTextsAppend(front, back);
    assert [x][1..] == [];
  }

  lemma SplitAt<T>(ys: seq<T>, k: nat)
    requires k < |ys|
    ensures ys == ys[..k] + ([ys[k]] + ys[k + 1..])
  {
  }

  lemma ItemTextsSplice(ys: seq<ClassItem>, k: nat)
    requires k < |ys|
    ensures multiset(ItemTexts(ys)) == multiset{ItemText(ys[k])} + multiset(ItemTexts(ys[..k] + ys[k + 1..]))
  {
    var front, back := ys[..k], ys[k + 1..];
    SplitAt(ys, k);
    ItemTextsAround(front, ys[k], back);
    MultisetSplice(ItemTexts(front), ItemText(ys[k]), ItemTexts(back));
  }

  lemma {:induction false} ItemTextsPermutation(xs: seq<ClassItem>, ys: seq<ClassItem>)
    requires multiset(xs) == multiset(ys)
    ensures multiset(ItemTexts(xs)) == multiset(ItemTexts(ys))
    decreases |xs|
  {
    assert |xs| == |multiset(xs)| == |multiset(ys)| == |ys|;
    if xs != [] {
      assert xs[0] in multiset(ys) by {
        assert xs[0] in multiset(xs);
      }
      var k :| 0 <= k < |ys| && ys[k] == xs[0];
      RemoveAt(xs, ys, k);
      ItemTextsPermutation(xs[1..], ys[..k] + ys[k + 1..]);
      ItemTextsSplice(ys, k);
      assert ItemTexts(xs) == [ItemText(xs[0])] + ItemTexts(xs[1..]);
    }
  }

  /** The rendering of a multi-entry class depends on which entries it has,
      not on their order. */
  lemma {:induction false} JoinCharactersOrderFree(xs: seq<ClassItem>, ys: seq<ClassItem>)
    requires multiset(xs) == multiset(ys)
    ensures JoinCharacters(xs) == JoinCharacters(ys)
  {
    ItemTextsPermutation(xs, ys);
    StringSort.SortPermutationInvariant(ItemTexts(xs), ItemTexts(ys));
  }

  /** The entries of a multi-entry class are rendered in sorted order. */
  lemma {:induction false} JoinCharactersSorted(items: seq<ClassItem>)
    ensures exists order: seq<string> ::
      StringSort.Sorted(order) && multiset(order) == multiset(ItemTexts(items)) &&
      JoinCharacters(items) == StringSort.Concat(order)
  {
    StringSort.SortSorted(ItemTexts(items));
    var order := StringSort.Sort(ItemTexts(items));
    assert StringSort.Sorted(order) && multiset(order) == multiset(ItemTexts(items));
  }

  // -----------------------------------------------------------------------
  // Rendering (asm.py:7-14, 31-188)

  /** The first error among rs, or all their values. */
  function CollectResults(rs: seq<Result<string>>): (r: Result<seq<string>>)
    ensures r.Ok? <==> forall i :: 0 <= i < |rs| ==> rs[i].Ok?
    ensures r.Ok? ==> |r.value| == |rs| && forall i :: 0 <= i < |rs| ==> r.value[i] == rs[i].value
  {
    if rs == [] then Ok([])
    else
      var head :- rs[0];
      var tail :- CollectResults(rs[1..]);
      Ok([head] + tail)
  }

  /** `sep.join(xs)`. */
  function Join(sep: string, xs: seq<string>): string {
    if xs == [] then "" else if |xs| == 1 then xs[0] else xs[0] + sep + Join(sep, xs[1..])
  }

  predicate ShouldWrap(s: Node, siblings: nat) {
    s.Either? && siblings > 1
  }

  /** `PYTHON_IDENTIFIER`'s letters under IGNORECASE: the ASCII letters and
      the four non-ASCII letters whose case folding reaches one of them. */
  predicate IdentifierLetter(c: char) {
    'a' <= c <= 'z' || 'A' <= c <= 'Z' || c == 'İ' || c == 'ı' || c == 'ſ' || c == 'K'
  }

  predicate IdentifierStart(c: char) {
    c == '_' || IdentifierLetter(c)
  }

  predicate IdentifierChar(c: char) {
    IdentifierStart(c) || '0' <= c <= '9'
  }

  predicate IdentifierBody(s: string) {
    |s| >= 1 && IdentifierStart(s[0]) && forall i :: 1 <= i < |s| ==> IdentifierChar(s[i])
  }

  /** `PYTHON_IDENTIFIER.match(name)`; `$` also matches before a final newline. */
  predicate IsIdentifier(name: string) {
    IdentifierBody(name) || (|name| >= 2 && name[|name| - 1] == '\n' && IdentifierBody(name[..|name| - 1]))
  }

  /** `Capture.name_regex`. */
  function NameRegex(name: Option<string>, syntax: string): (r: Result<string>)
    ensures r.Ok? <==> name.None? || IsIdentifier(name.value)
  {
    if name.None? then Ok("")
    else if name.value == "" then Err(ValueError, "Capture name cannot be empty")
    else if !IsIdentifier(name.value) then Err(ValueError, "invalid capture group name: " + name.value)
    else if syntax == "javascript" then Ok("?<" + name.value + ">")
    else Ok("?P<" + name.value + ">")
  }

  /** A node renders unless it holds a compile error object, or a capture
      whose name is not an identifier. */
  predicate Renderable(n: Node)
    decreases n
  {
    match n
    case Multiple(_, _, _, sub) => Renderable(sub)
    case Either(subs) => forall i :: 0 <= i < |subs| ==> Renderable(subs[i])
    case Concat(subs) => forall i :: 0 <= i < |subs| ==> Renderable(subs[i])
    case Capture(name, sub) => (name.None? || IsIdentifier(name.value)) && Renderable(sub)
    case Setting(_, sub) => Renderable(sub)
    case ErrorValue(_) => false
    case _ => true
  }

  /** `to_regex(syntax, wrap)`. */
  function ToRegex(n: Node, syntax: string, wrap: bool): Result<string>
    decreases n
  {
    match n
    case Literal(s) => Ok(MaybeWrap(wrap && |s| != 1, EscapeLiteral(s)))
    case Multiple(min, max, greedy, sub) =>
      var inner :- ToRegex(sub, syntax, true);
      Ok(MaybeWrap(wrap, inner + Quantifier(min, max, greedy)))
    case Either(subs) =>
      var parts :- CollectResults(seq(|subs|, i requires 0 <= i < |subs| => ToRegex(subs[i], syntax, false)));
      Ok(MaybeWrap(wrap, Join("|", parts)))
    case Concat(subs) =>
      var parts :- CollectResults(seq(|subs|, i requires 0 <= i < |subs| => ToRegex(subs[i], syntax, ShouldWrap(subs[i], |subs|))));
      Ok(MaybeWrap(wrap, StringSort.Concat(parts)))
    case CharacterClass(items, inverted) => Ok(ClassRegex(items, inverted, syntax))
    case Boundary(character, _) => Ok(character)
    case Capture(name, sub) =>
      var nameRegex :- NameRegex(name, syntax);
      var inner :- ToRegex(sub, syntax, false);
      Ok("(" + nameRegex + inner + ")")
    case Setting(setting, sub) =>
      if setting == "" then ToRegex(sub, syntax, false)
      else
        var inner :- ToRegex(sub, syntax, wrap);
        Ok("(?" + setting + ")" + inner)
    case ErrorValue(_) => Err(AttributeError, "'CompileError' object has no attribute 'to_regex'")
  }

  /** `assemble`: the regex of a whole tree, which exists exactly when the
      tree holds no error object and no invalid capture name. */
  function Assemble(n: Node, syntax: string): (r: Result<string>)
    ensures r.Ok? <==> Renderable(n)
  {
    RenderableIff(n, syntax, false);
    ToRegex(n, syntax, false)
  }

  /** Rendering, wrapped or not, succeeds exactly on the renderable nodes. */
  lemma {:induction false} RenderableIff(n: Node, syntax: string, wrap: bool)
    ensures ToRegex(n, syntax, wrap).Ok? <==> Renderable(n)
    decreases n
  {
    match n
    case Multiple(_, _, _, sub) =>
      RenderableIff(sub, syntax, true);
    case Either(subs) =>
      var rs := seq(|subs|, i requires 0 <= i < |subs| => ToRegex(subs[i], syntax, false));
      forall i | 0 <= i < |subs| ensures rs[i].Ok? <==> Renderable(subs[i]) {
        RenderableIff(subs[i], syntax, false);
      }
      assert ToRegex(n, syntax, wrap).Ok? <==> CollectResults(rs).Ok?;
    case Concat(subs) =>
      var rs := seq(|subs|, i requires 0 <= i < |subs| => ToRegex(subs[i], syntax, ShouldWrap(subs[i], |subs|)));
      forall i | 0 <= i < |subs| ensures rs[i].Ok? <==> Renderable(subs[i]) {
        RenderableIff(subs[i], syntax, ShouldWrap(subs[i], |subs|));
      }
      assert ToRegex(n, syntax, wrap).Ok? <==> CollectResults(rs).Ok?;
    case Capture(_, sub) =>
      RenderableIff(sub, syntax, false);
    case Setting(_, sub) =>
      RenderableIff(sub, syntax, false);
      RenderableIff(sub, syntax, wrap);
    case _ =>
  }

  /** `invert()` of the nodes that have one. */
  function Invert(n: Node): (r: Result<Node>)
    ensures r.Ok? ==> r.value.CharacterClass? || r.value.Boundary?
  {
    match n
    case CharacterClass(items, inverted) => Ok(CharacterClass(items, !inverted))
    case Boundary(character, reverse) =>
      if reverse.None? then Err(ValueError, "Cannot invert boundary")
      else Ok(Boundary(reverse.value, Some(character)))
    case _ => Err(AttributeError, "object has no attribute 'invert'")
  }

  /** Inverting a class or a boundary twice gives it back; a class can
      always be inverted, a boundary exactly when it has a reverse. */
  lemma InvertInvolution(n: Node)
    requires Invert(n).Ok?
    ensures Invert(Invert(n).value) == Ok(n)
  {
  }

  lemma InvertDefined(n: Node)
    ensures Invert(n).Ok? <==> n.CharacterClass? || (n.Boundary? && n.reverse.Some?)
    ensures n.Boundary? && n.reverse.None? ==> Invert(n).Err? && Invert(n).kind == ValueError
    ensures n.CharacterClass? ==> Invert(n) == Ok(n.(inverted := !n.inverted))
  {
  }

  /** A capture group is named exactly when its name is a non-empty
      identifier, with the JavaScript or the Python group syntax. */
  lemma NameRegexSpec(name: Option<string>, syntax: string)
    ensures NameRegex(name, syntax).Ok? <==> name.None? || IsIdentifier(name.value)
    ensures name.Some? && NameRegex(name, syntax).Ok? ==>
      NameRegex(name, syntax).value == (if syntax == "javascript" then "?<" else "?P<") + name.value + ">"
    ensures name.None? ==> NameRegex(name, syntax) == Ok("")
  {
  }

  /** The rendered literal matches exactly its text, and is wrapped only
      when wrapping is asked for and the text is not a single character. */
  lemma LiteralRendering(s: string, syntax: string, wrap: bool)
    ensures ToRegex(Literal(s), syntax, wrap).Ok?
    ensures Unescape(ToRegex(Literal(s), syntax, false).value) == Some(s)
    ensures ToRegex(Literal(s), syntax, wrap).value ==
      MaybeWrap(wrap && |s| != 1, ToRegex(Literal(s), syntax, false).value)
  {
    EscapeLiteralRoundTrip(s);
  }

  /** A repetition renders its operand wrapped, followed by an operator
      that denotes the repetition's bounds and greediness. */
  lemma MultipleRendering(min: nat, max: Option<nat>, greedy: bool, sub: Node, syntax: string)
    requires ValidBounds(min, max)
    requires ToRegex(sub, syntax, true).Ok?
    ensures var q := Quantifier(min, max, greedy);
      ToRegex(Multiple(min, max, greedy, sub), syntax, false) == Ok(ToRegex(sub, syntax, true).value + q) &&
      DecodeQuantifier(q) == Some((min, max, greedy))
  {
    QuantifierRoundTrip(min, max, greedy);
  }

  lemma CollectSingle(r: Result<string>)
    ensures CollectResults([r]) == if r.Ok? then Ok([r.value]) else Err(r.kind, r.message)
  {
    assert [r][0] == r && [r][1..] == [];
    assert CollectResults([]) == Ok([]);
    if r.Ok? {
      assert CollectResults([r]) == Ok([r.value] + []);
      assert [r.value] + [] == [r.value];
    } else {
      assert CollectResults([r]) == r.PropagateFailure();
    }
  }

  /** A one-element concatenation or alternation renders as its element. */
  lemma SingleChildRendering(x: Node, syntax: string)
    ensures ToRegex(Concat([x]), syntax, false) == ToRegex(x, syntax, false)
    ensures ToRegex(Either([x]), syntax, false) == ToRegex(x, syntax, false)
  {
    var r := ToRegex(x, syntax, false);
    var rs := seq(1, i requires 0 <= i < 1 => ToRegex([x][i], syntax, false));
    assert rs == [r];
    var ws := seq(1, i requires 0 <= i < 1 => ToRegex([x][i], syntax, ShouldWrap([x][i], 1)));
    assert ws == [r];
    CollectSingle(r);
    if r.Ok? {
      assert StringSort.Concat([r.value]) == r.value + StringSort.Concat([r.value][1..]);
      assert [r.value][1..] == [];
      assert r.value + "" == r.value;
    }
  }

  /** A concatenation wraps exactly its alternation children, and only when
      it has more than one child. */
  lemma ConcatWrapsAlternations(subs: seq<Node>, syntax: string, i: nat)
    requires i < |subs|
    requires ToRegex(Concat(subs), syntax, false).Ok?
    ensures ToRegex(subs[i], syntax, subs[i].Either? && |subs| > 1).Ok?
  {
    var rs := seq(|subs|, j requires 0 <= j < |subs| => ToRegex(subs[j], syntax, ShouldWrap(subs[j], |subs|)));
    assert rs[i].Ok?;
  }

  /** An inverted single shorthand renders as its upper-case complement. */
  lemma InvertedShorthand(c: char, syntax: string)
    requires c == 'd' || c == 's' || c == 'w'
    ensures ToRegex(CharacterClass([Text(['\\', c])], true), syntax, false) ==
      Ok(['\\', if c == 'd' then 'D' else if c == 's' then 'S' else 'W'])
  {
    assert IsDswShorthand(['\\', c]);
    assert "\\" + [ShorthandUpper(c)] == ['\\', ShorthandUpper(c)];
  }

  /** A letter needs no escaping inside a class. */
  lemma EscapeLetter(c: char)
    requires 'a' <= c <= 'z' || 'A' <= c <= 'Z'
    ensures EscapeClassChar([c]) == [c]
  {
    IsSubstringSingle(c, "^-[]\\");
  }

  lemma LetterTexts()
    ensures ItemTexts([Span('a', 'z'), Span('A', 'Z')]) == ["a-z", "A-Z"]
  {
    EscapeLetter('a');
    EscapeLetter('z');
    EscapeLetter('A');
    EscapeLetter('Z');
    var items := [Span('a', 'z'), Span('A', 'Z')];
    assert ItemText(items[0]) == "a-z";
    assert ItemText(items[1]) == "A-Z";
    assert items[1..][1..] == [];
    assert ItemTexts(items[1..]) == ["A-Z"] + ItemTexts([]);
  }

  lemma LetterOrder()
    ensures StringSort.Sort(["a-z", "A-Z"]) == ["A-Z", "a-z"]
  {
    assert ["a-z", "A-Z"][1..] == ["A-Z"];
    assert StringSort.Sort(["A-Z"]) == ["A-Z"];
    assert !StringSort.LexLe("a-z", "A-Z");
    assert StringSort.Insert("a-z", ["A-Z"]) == ["A-Z"] + StringSort.Insert("a-z", []);
  }

  /** `#letter` renders as `[A-Za-z]`: its two ranges come out sorted. */
  lemma LetterRendering(syntax: string)
    ensures ToRegex(LETTER, syntax, false) == Ok("[A-Za-z]")
  {
    var items := [Span('a', 'z'), Span('A', 'Z')];
    assert LETTER == CharacterClass(items, false);
    ClassToRegex(items, false, syntax);
    ClassOfSeveral(items, false, syntax);
    LetterJoin();
    var joined := JoinCharacters(items);
    assert joined == "A-Za-z";
    assert ClassRegex(items, false, syntax) == "[" + "" + joined + "]";
    BracketLetters();
  }

  lemma BracketLetters()
    ensures "[" + "" + "A-Za-z" + "]" == "[A-Za-z]"
  {
  }

  lemma ClassToRegex(items: seq<ClassItem>, inverted: bool, syntax: string)
    ensures ToRegex(CharacterClass(items, inverted), syntax, false) == Ok(ClassRegex(items, inverted, syntax))
  {
  }

  lemma ClassOfSeveral(items: seq<ClassItem>, inverted: bool, syntax: string)
    requires |items| >= 2
    ensures ClassRegex(items, inverted, syntax) == "[" + (if inverted then "^" else "") + JoinCharacters(items) + "]"
  {
  }

  lemma LetterJoin()
    ensures JoinCharacters([Span('a', 'z'), Span('A', 'Z')]) == "A-Za-z"
  {
    LetterTexts();
    LetterOrder();
    ConcatTwo("A-Z", "a-z");
    assert "A-Z" + "a-z" == "A-Za-z";
  }

  lemma ConcatTwo(x: string, y: string)
    ensures StringSort.Concat([x, y]) == x + y
  {
    assert [x, y][1..] == [y];
    assert [y][1..] == [];
    assert StringSort.Concat([y]) == y + "";
    assert y + "" == y;
  }

  // -----------------------------------------------------------------------
  // Meaning of nodes, for stating what the compiler preserves

  /** The node matches the empty string somewhere (a boundary matches the
      empty string where it holds). */
  predicate Nullable(n: Node)
    decreases n
  {
    match n
    case Literal(s) => s == ""
    case Multiple(min, _, _, sub) => min == 0 || Nullable(sub)
    case Either(subs) => exists i :: 0 <= i < |subs| && Nullable(subs[i])
    case Concat(subs) => forall i :: 0 <= i < |subs| ==> Nullable(subs[i])
    case CharacterClass(_, _) => false
    case Boundary(_, _) => true
    case Capture(_, sub) => Nullable(sub)
    case Setting(_, sub) => Nullable(sub)
    case ErrorValue(_) => false
  }

  /** The characters a shorthand class entry stands for (ASCII part). */
  predicate ShorthandAccepts(s: string, c: char) {
    if s == "\\d" then '0' <= c <= '9'
    else if s == "\\s" then c in {' ', '\t', '\n', '\r', '\U{000B}', '\U{000C}'}
    else if s == "\\w" then 'a' <= c <= 'z' || 'A' <= c <= 'Z' || '0' <= c <= '9' || c == '_'
    else if s == "\\n" then c == '\n'
    else if s == "\\r" then c == '\r'
    else if s == "\\t" then c == '\t'
    else if s == "\\u2028" then c == '\U{2028}'
    else if s == "\\u2029" then c == '\U{2029}'
    else false
  }

  predicate ItemAccepts(item: ClassItem, c: char) {
    match item
    case Text(s) => if |s| == 1 then s[0] == c else ShorthandAccepts(s, c)
    case Span(lo, hi) => lo <= c <= hi
  }

  predicate SomeItemAccepts(items: seq<ClassItem>, c: char) {
    exists i :: 0 <= i < |items| && ItemAccepts(items[i], c)
  }

  /** The characters a class matches. */
  predicate ClassAccepts(n: Node, c: char)
    requires n.CharacterClass?
  {
    SomeItemAccepts(n.items, c) != n.inverted
  }

  // -----------------------------------------------------------------------
  // Predefined nodes (asm.py:130-159)

  const ANY := CharacterClass([], true)
  const NEWLINE := CharacterClass([Text("\\r"), Text("\\n"), Text("\\u2028"), Text("\\u2029")], false)
  const LINEFEED := CharacterClass([Text("\\n")], false)
  const CARRIAGE_RETURN := CharacterClass([Text("\\r")], false)
  const TAB := CharacterClass([Text("\\t")], false)
  const DIGIT := CharacterClass([Text("\\d")], false)
  const LETTER := CharacterClass([Span('a', 'z'), Span('A', 'Z')], false)
  const LOWERCASE := CharacterClass([Span('a', 'z')], false)
  const UPPERCASE := CharacterClass([Span('A', 'Z')], false)
  const SPACE := CharacterClass([Text("\\s")], false)
  const TOKEN_CHARACTER := CharacterClass([Text("\\w")], false)

  const START_LINE := Boundary("^", None)
  const END_LINE := Boundary("$", None)
  const START_STRING := Boundary("\\A", None)
  const END_STRING := Boundary("\\Z", None)
  const WORD_BOUNDARY := Boundary("\\b", Some("\\B"))
}
