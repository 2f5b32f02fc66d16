/**
 * The Rust back end (rust/src/compiler.rs): an AST of concatenations and
 * literals becomes a Python-flavoured regex. The other kinds of node are
 * not written yet in the source and fail here.
 */
module RustCompiler {
  import opened Errors
  import RustParse
  import Asm

  /** `Regexable`: what the back end can render. */
  datatype Regexable = Concat(items: seq<Regexable>) | Literal(s: string)

  // -----------------------------------------------------------------------
  // Escaping (rust/src/compiler.rs:40-56)

  /** The characters `escape` writes with a backslash before them. */
  predicate IsEscapedAsWritten(c: char) {
    c in {'(', ')', '[', ']', '{', '}', '?', '*', '+', '|', '^', '$', '\\'}
  }

  /** The image of one character as written: '.' is copied unchanged. */
  function EscapeCharAsWritten(c: char): string {
    if IsEscapedAsWritten(c) then ['\\', c]
    else if Asm.ControlLetter(c).Some? then ['\\', Asm.ControlLetter(c).value]
    else [c]
  }

  /** `escape` as written. */
  function EscapeAsWritten(s: string): string {
    if s == [] then [] else EscapeCharAsWritten(s[0]) + EscapeAsWritten(s[1..])
  }

  /** The characters `escape` must write with a backslash: those listed,
      and also '.', which a regex reads as "any character". */
  predicate IsEscaped(c: char) {
    IsEscapedAsWritten(c) || c == '.'
  }

  function EscapeChar(c: char): (r: string)
    ensures 1 <= |r| <= 2
  {
    if IsEscaped(c) then ['\\', c]
    else if Asm.ControlLetter(c).Some? then ['\\', Asm.ControlLetter(c).value]
    else [c]
  }

  /** `escape`, with '.' escaped as well; the rest of the model uses this
      one. */
  function Escape(s: string): string {
    if s == [] then [] else EscapeChar(s[0]) + Escape(s[1..])
  }

  // -----------------------------------------------------------------------
  // Rendering (rust/src/compiler.rs:16-37, 58-68)

  /** `wrap_if`: a non-capturing group around the regex when asked for. */
  function WrapIf(condition: bool, regex: string): string {
    if condition then "(?:" + regex + ")" else regex
  }

  /** How many bytes UTF-8 takes for one character. */
  function Utf8Width(c: char): nat {
    if c as int < 0x80 then 1
    else if c as int < 0x800 then 2
    else if c as int < 0x10000 then 3
    else 4
  }

  /** `str::len`: the length in bytes of the UTF-8 encoding. */
  function Utf8Length(s: string): nat {
    if s == [] then 0 else Utf8Width(s[0]) + Utf8Length(s[1..])
  }

  /** `Regexable::to_regex`: a literal is wrapped when wrapping is asked
      for and it is not one byte long; the items of a concatenation are
      rendered without wrapping and joined. */
  function ToRegex(r: Regexable, wrap: bool): string
    decreases r
  {
    match r
    case Literal(s) => WrapIf(wrap && Utf8Length(s) != 1, Escape(s))
    case Concat(items) => WrapIf(wrap, RenderAll(items))
  }

  function RenderAll(items: seq<Regexable>): string
    decreases items
  {
    if items == [] then "" else ToRegex(items[0], false) + RenderAll(items[1..])
  }

  // -----------------------------------------------------------------------
  // From the parser's AST (rust/src/compiler.rs:66-83)

  const NOT_IMPLEMENTED := "not yet implemented"

  /** `Ast::compile`: the arms that are `todo!()` fail. */
  function Compile(ast: RustParse.Ast): Result<Regexable>
    decreases ast
  {
    match ast
    case Concat(items) =>
      var compiled :- CompileAll(items);
      Ok(Concat(compiled))
    case Either(_) => Err(Unimplemented, NOT_IMPLEMENTED)
    case Operator(_, _, _) => Err(Unimplemented, NOT_IMPLEMENTED)
    case Macro(_) => Err(Unimplemented, NOT_IMPLEMENTED)
    case Range(_, _) => Err(Unimplemented, NOT_IMPLEMENTED)
    case Literal(s) => Ok(Literal(s))
  }

  function CompileAll(items: seq<RustParse.Ast>): (r: Result<seq<Regexable>>)
    ensures r.Ok? ==> |r.value| == |items|
    decreases items
  {
    if items == [] then Ok([])
    else
      var head :- Compile(items[0]);
      var tail :- CompileAll(items[1..]);
      Ok([head] + tail)
  }

  /** `compile`: the regex of a whole AST, never wrapped. */
  function CompileAst(ast: RustParse.Ast): Result<string> {
    var r :- Compile(ast);
    Ok(ToRegex(r, false))
  }
}
