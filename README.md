# kleenexp in Dafny

kleenexp is a regular-expression syntax with readable names: `[1+ #digit]`,
`[capture:year 4 #d]`, `['a' | 'b']`. A pattern is plain text with groups in
square brackets. A group holds quoted literals, `#macros`, a chain of
operators in front of what it applies to, or alternatives separated by `|`.
This project models the core of the implementation and proves what it
promises:

- **Number ranges** (`ke/numrange.py`): `#a..b` with numbers becomes an
  alternation of single ranges such as `2[0-9]|3[0-4]`. The model follows
  the Python digit manipulation (`str`, `int`, slicing, `x or y`). It proves
  that the regex matches exactly the decimal numbers from a to b.
- **Assembly** (`ke/asm.py`): the intermediate nodes (`Literal`, `Multiple`,
  `Either`, `Concat`, `CharacterClass`, `Boundary`, `Capture`, `Setting`) and
  their rendering to regex text. Proved: escaping round-trips, repetition
  operators denote their bounds, class rendering is sorted and order-free,
  and inversion is an involution.
- **Compiler** (`ke/compiler.py`): AST to assembly. The macro table is a
  field of a `Compiler` class. `compile_concat` binds definitions into it and
  removes them again, so each concatenation scopes its own definitions. The
  builtin macro and operator tables are built by the same loops as in the
  source.
- **Python parser** (`ke/parser.py`): the PEG grammar as functions from a
  position to a parse tree and an end position, and the visitor as functions
  and methods over the trees.
- **Rust parser and back end** (`rust/src/parse.rs`,
  `rust/src/compiler.rs`): the nom combinators as functions of the same kind,
  and the back end that renders concatenations of literals.
- **VS Code extension** (`vscode/kleenexp/src/extension.ts`): the
  most-recently-used pattern list, a class whose method changes its list in
  place, and the escaper that turns selected text into a kleenexp. Proved:
  the escaped text parses back to that text, both in the Python parser and
  in the Rust parser that the extension's transpiler is built from.

Python's `str` and `int` on natural numbers are modelled in module `Decimal`.
Python's `sorted` on strings is modelled in `StringSort`. Errors the source
raises become `Err` values of `Errors.Result`, tagged with the Python
exception class.

## Model

| member | source | states |
|---|---|---|
| Decimal.ValueStr | ke/numrange.py:13-17 | `int(str(n)) == n` for every natural n |
| Decimal.StrValue | ke/numrange.py:13-17 | `str(int(s)) == s` for every canonical digit string s |
| Decimal.StrCanonical | ke/numrange.py:32-33 | `str(n)` has no leading zero unless n is 0, and its length places n between two powers of ten |
| NumRange.SliceBound | ke/numrange.py:13-17 | a Python slice index is clamped into the string, and a negative one counts from the end |
| NumRange.ReplaceWithArith | ke/numrange.py:13-17 | for any position i up to len(str(a)), putting a digit at position i from the right keeps the digits above and below it: the result is `a // 10^(i+1) * 10^(i+1) + digit * 10^i + a % 10^i`, and at i == len(str(a)) the digit is prepended |
| NumRange.ReplaceWithValue | ke/numrange.py:13-17 | for any i up to len(str(a)), the spliced string (the digits above i, the new digit, the i digits below) is all digits and its value is the arithmetic replacement |
| NumRange.ReplaceWithPrepends | ke/numrange.py:27-28 | `replace_with(8999, 4, 9) == 98999` and `replace_with(8999, 4, 5) == 58999` |
| NumRange.ReplaceWith | ke/numrange.py:13-17 | `replace_with` on the decimal string, with Python's slice bounds; it has no contract of its own, and ReplaceWithArith states its value as arithmetic on a |
| NumRange.DigitAt | ke/numrange.py:32-33 | the digit at position i from the right is `(x // 10^i) % 10` |
| NumRange.SequenceOfNinesInsteadOfZeros | ke/numrange.py:74-93 | the generator's loop yields exactly the values of `NinesSequence(a)`: one value per trailing zero, each one more trailing zero turned into a nine |
| NumRange.KeptNines | ke/numrange.py:96-107 | the number of zeros turned into nines stops at the last one that keeps the value at most b, or at the last trailing zero |
| NumRange.ReplaceAllZeroDigitsStayingSmallerThanB | ke/numrange.py:96-116 | the loop returns the index and value of `ReplaceAllZeroDigits(a, b)` |
| NumRange.ReplaceAllZeroDigitsMeaning | ke/numrange.py:96-116 | from a <= b the result is `a + 10^k - 1 <= b`, the k low digits of a were zeros, and one more nine would exceed b or there is no further zero |
| NumRange.TryReplaceAsWritten | ke/numrange.py:49-53 | as written, the candidate is kept exactly when it is at most b |
| NumRange.TryReplace | ke/numrange.py:49-53 | corrected: the candidate is kept exactly when it lies between a and b |
| NumRange.OrElse | ke/numrange.py:46 | Python's `x or y`: None and 0 give y, any other number gives itself |
| NumRange.FallbackDigit | ke/numrange.py:42-46 | the second digit tried is between 1 and 9, except at position 0 where it is b's last digit |
| NumRange.TryToReplaceLowestNonzeroDigitAsWritten | ke/numrange.py:42-46 | as written, the result is at most b (it may fall below a) |
| NumRange.TryToReplaceLowestNonzeroDigit | ke/numrange.py:42-46 | with the corrected replacement, the result lies between a and b |
| NumRange.MaxSingleRangeBelowAsWritten | ke/numrange.py:119-122 | as written, the end of the first single range is at most b |
| NumRange.MaxSingleRangeBelow | ke/numrange.py:119-122 | corrected: the end m of the first single range satisfies a <= m <= b |
| NumRange.MaxSingleRangeBelowAligned | ke/numrange.py:119-146 | [a, m] is a single range: a and m agree above a digit position, a has only zeros below it and m only nines |
| NumRange.ComputeMaxSingleRangeBelow | ke/numrange.py:119-122 | the method computes `MaxSingleRangeBelow(a, b)` |
| NumRange.LoopDepth | ke/numrange.py:154-160 | the number of loop rounds leaves a and b with the same leading digits |
| NumRange.SingleRangeToRegex | ke/numrange.py:149-189 | the loop's output is the rendering of `SingleRangeAtoms(a, b)`: common prefix, one digit class, then `\d` once per remaining digit |
| NumRange.SingleRangeAtoms | ke/numrange.py:149-189 | the atoms of one single range (prefix digits, one class, one `\d` per lower digit); no contract of its own, SingleRangeLanguage proves their regex matches exactly the decimals of the range and SingleRangeToRegex that the loop renders them |
| NumRange.ShapeSound | ke/numrange.py:149-173 | every string the prefix, class and `[0-9]` atoms match is a decimal number in the range they describe |
| NumRange.ShapeComplete | ke/numrange.py:149-173 | every decimal number in that range is matched by those atoms |
| NumRange.SingleRangeLanguage | ke/numrange.py:149-189 | for a single range [a, m], the regex matches w exactly when w is the decimal form of a number from a to m |
| NumRange.NumberRangeAsWrittenDoesNotTerminate | ke/numrange.py:192-206 | as written, `max_single_range_below(20, 29)` is 19, so `number_range_to_regex(20, 29)` calls itself with the same arguments |
| NumRange.MaxSingleRangeBelowAsWrittenUndershoots | ke/numrange.py:119-122 | the written and the corrected search agree, except where the written one returns a number below a |
| NumRange.TryToReplaceAsWrittenUndershoots | ke/numrange.py:42-53 | the written and the corrected digit replacement agree, except where the written one returns a number below a |
| NumRangeRegex.Ranges | ke/numrange.py:192-206 | the single ranges emitted for [a, b], never none |
| NumRangeRegex.RangesTile | ke/numrange.py:192-206 | those ranges cut [a, b] into consecutive single ranges |
| NumRangeRegex.TilesLanguage | ke/numrange.py:192-206 | alternatives built from consecutive single ranges match exactly the numbers from a to b |
| NumRangeRegex.NumberRangeLanguage | ke/numrange.py:192-219 | the alternation for [a, b] matches w exactly when w is the decimal form of a number from a to b |
| NumRangeRegex.NumberRangeToRegex | ke/numrange.py:192-206 | the method's output is the rendered single ranges of `Ranges(a, b)` joined with bars, in order |
| NumRangeRegex.NumberRangeFrom | ke/numrange.py:201-206 | once the first range [a, m] is known, the output is the join of that range and the ranges of [m+1, b] |
| NumRangeExamples.SingleRangeExample | ke/numrange.py:189 | the regex of the single range 12000 to 12599 is exactly `12[0-5]\d\d` |
| NumRangeExamples.NumberRangeExample | ke/numrange.py:219 | the alternation for 0 to 255 is exactly `\d`, `[1-9]\d`, `1\d\d`, `2[0-4]\d` and `25[0-5]` joined by bars, in that order |
| StringSort.Sort | ke/asm.py:117-124 | `sorted` keeps the same strings with the same multiplicities |
| StringSort.SortSorted | ke/asm.py:117-124 | `sorted` returns a sorted list |
| StringSort.SortPermutationInvariant | ke/asm.py:117-124 | `sorted` of two permutations of the same strings is the same list |
| StringSort.SortedUnique | ke/asm.py:117-124 | two sorted permutations of the same strings are equal |
| StringSort.LexLeTotal | ke/asm.py:117-124 | Python's string order compares any two strings |
| StringSort.LexLeAntisymmetric | ke/asm.py:117-124 | two strings that are each at most the other are equal |
| StringSort.LexLeTransitive | ke/asm.py:117-124 | Python's string order is transitive |
| Asm.MaybeWrap | ke/asm.py:11-14 | wrapping puts the regex in a non-capturing group; not wrapping leaves it as it is |
| Asm.TranslateControls | ke/asm.py:20-26 | the control-character translation keeps the length and maps each character through the table: tab, newline, return, vertical tab and form feed to their escape letters, every other character to itself |
| Asm.EscapeLiteralImages | ke/asm.py:31-48 | the three passes of `Literal.to_regex` escape one character at a time |
| Asm.EscapeLiteralRoundTrip | ke/asm.py:18-48 | reading the escaped literal back as a regex gives the literal: it matches exactly its text |
| Asm.LiteralRendering | ke/asm.py:31-38 | a rendered literal matches exactly its text, and is wrapped only when asked and it is not one character long |
| Asm.DecodeOpRoundTrip | ke/asm.py:51-65 | the repetition operator written for valid bounds reads back as those bounds |
| Asm.QuantifierRoundTrip | ke/asm.py:51-65 | with the lazy mark, the operator reads back as the bounds and the greediness |
| Asm.ZeroMaxRendersUnbounded | ke/asm.py:51-65 | a maximum of 0 with a positive minimum is rendered as unbounded, because `self.max or ""` treats 0 as missing |
| Asm.MultipleRendering | ke/asm.py:51-65 | a repetition renders its operand wrapped, followed by an operator that denotes its bounds and greediness |
| Asm.SingleChildRendering | ke/asm.py:68-83 | a one-element concatenation or alternation renders as its element |
| Asm.ConcatWrapsAlternations | ke/asm.py:75-83 | a concatenation of several nodes renders each alternation among them wrapped |
| Asm.IsSubstringSingle | ke/asm.py:113-114 | Python's `c in NEED_ESCAPING` on a one-character string is membership of the character |
| Asm.EscapeLetter | ke/asm.py:111-114 | a letter is not escaped inside a class |
| Asm.JoinCharactersOrderFree | ke/asm.py:116-124 | a class with several entries renders the same whatever the order of its entries |
| Asm.JoinCharactersSorted | ke/asm.py:116-124 | a class with several entries renders its entries in sorted order |
| Asm.ClassToRegex | ke/asm.py:86-109 | a class always renders successfully, as its class text |
| Asm.ClassOfSeveral | ke/asm.py:86-124 | a class of two entries or more renders as brackets, a caret when inverted, and the joined entries |
| Asm.InvertedShorthand | ke/asm.py:99-108 | an inverted single `\d`, `\s` or `\w` renders as `\D`, `\S` or `\W` |
| Asm.LetterRendering | ke/asm.py:136 | `#letter` renders as `[A-Za-z]`, because its two ranges come out sorted |
| Asm.CollectResults | ke/asm.py:55-83 | rendering a list of children succeeds exactly when every child does, and keeps their texts in order |
| Asm.Invert | ke/asm.py:126-127 | inversion gives back a class or a boundary |
| Asm.InvertDefined | ke/asm.py:126-150 | inversion is defined exactly for classes and for boundaries with a reverse; a class flips its flag; a boundary without a reverse raises ValueError |
| Asm.InvertInvolution | ke/asm.py:126-150 | inverting twice gives back the class or the boundary |
| Asm.NameRegexSpec | ke/asm.py:162-178 | a capture group is named exactly when its name is a Python identifier, with `?<` for JavaScript and `?P<` otherwise, and an unnamed group has no name part |
| Asm.NameRegex | ke/asm.py:169-178 | a name part is produced exactly when there is no name or the name is an identifier; NameRegexSpec gives its text |
| Asm.ToRegex | ke/asm.py:8-188 | every node's `to_regex`; no contract of its own: RenderableIff gives when it succeeds, and LiteralRendering, MultipleRendering, ClassOfSeveral and CollectResults state what each node renders to |
| Asm.RenderableIff | ke/asm.py:8-188 | `to_regex`, wrapped or not, succeeds exactly when the tree holds no compile error object and no capture whose name is not an identifier |
| Asm.Assemble | ke/asm.py:191-192 | `assemble` renders the whole tree unwrapped, and succeeds exactly when the tree holds no error object and no invalid capture name |
| Asm.ClassRegex | ke/asm.py:87-111 | `CharacterClass.to_regex`; no contract of its own: ClassOfSeveral, InvertedShorthand and LetterRendering state its text for several entries, for the inverted shorthands and for `#letter` |
| Asm.JoinCharacters | ke/asm.py:116-124 | `join_characters`; no contract of its own: JoinCharactersSorted and JoinCharactersOrderFree state that the entries are joined in sorted order and that their order does not matter |
| KeParser.RunEnd | ke/parser.py:18-27 | a run of characters of one kind stops at the end of the input or at the first character of another kind |
| KeParser.Whitespace | ke/parser.py:24 | `whitespace` consumes input within bounds, when it matches |
| KeParser.SkipWhitespace | ke/parser.py:24 | optional whitespace never moves backwards or past the end |
| KeParser.ParseOp | ke/parser.py:10 | an operator consumes at least one character |
| KeParser.ParseMacro | ke/parser.py:14-15 | a macro starts with '#' and consumes at least two characters |
| KeParser.ParseInnerLiteral | ke/parser.py:19-21 | a quoted literal consumes at least its two quotes |
| KeParser.ParseBraces | ke/parser.py:8 | a brace group consumes at least its two brackets |
| KeParser.ParseInBraces | ke/parser.py:8 | the content of a group, when there is one, consumes input |
| KeParser.ParseOpsMatches | ke/parser.py:9 | an operator chain consumes input |
| KeParser.MoreOps | ke/parser.py:9 | further operators stay within the input |
| KeParser.ParseEither | ke/parser.py:11 | an alternation consumes input |
| KeParser.MoreBranches | ke/parser.py:11 | further branches stay within the input |
| KeParser.ParseMatches | ke/parser.py:12 | a sequence of matches consumes input |
| KeParser.MoreMatches | ke/parser.py:12 | further matches stay within the input |
| KeParser.ParseMatch | ke/parser.py:13 | a match consumes input |
| KeParser.ParseDef | ke/parser.py:16 | a definition consumes input |
| KeParser.ParseItems | ke/parser.py:7 | the top-level items stay within the input |
| KeParser.ParseTree | ke/parser.py:5-29 | parsing succeeds exactly when the top-level items consume the whole input |
| KeParser.Contribution | ke/parser.py:51-58 | a concatenation contributes its items to the top level, `Nothing` contributes nothing, anything else itself |
| KeParser.VisitAll | ke/parser.py:51-58 | visiting the children gives one node per child |
| KeParser.Parse | ke/parser.py:44-58 | a successful parse is a concatenation |
| KeParser.VisitRegex | ke/parser.py:51-58 | the loop builds the concatenation of `Flatten(nodes)` |
| KeParser.VisitOpsMatches | ke/parser.py:82-101 | the stack of operators is folded so that the first operator is outermost, around the matches or `Nothing` |
| KeParser.VisitEither | ke/parser.py:103-110 | one branch alone is an AssertionError; otherwise the alternation holds every branch in order |
| KeParser.VisitMatches | ke/parser.py:112-120 | a single match stands for itself; several become a concatenation |
| KeParser.FoldOps | ke/parser.py:96-101 | the operator chain nested with the first operator outermost; no contract of its own: ParserFacts.FoldOpsPeel reads the operators and body back, FoldOpsInjective shows nothing is lost |
| KeParser.Visit | ke/parser.py:60-145 | the visitor from parse tree to AST; no contract of its own: ParserFacts.VisitWellFormed proves every AST it returns well formed, and the example lemmas give its result on literals, groups, macros and definitions |
| ParserFacts.FoldOpsPeel | ke/parser.py:82-101 | the operators of a chain can be read back off the AST in order, with the body |
| ParserFacts.FoldOpsInjective | ke/parser.py:82-101 | two operator chains of one length give the same AST only when operators and bodies are equal |
| ParserFacts.FlattenMembers | ke/parser.py:51-58 | a node is at the top level exactly when it is a child other than a concatenation or `Nothing`, or an item of a child concatenation |
| ParserFacts.ParseWellFormed | ke/parser.py:5-136 | every AST the parser returns has alternations of two branches or more, macro names of '#' and a token, named operators and alphanumeric range ends |
| ParseShape.TreeWellFormed | ke/parser.py:5-29 | every parse tree has the shape the grammar describes |
| ParseShape.OpShape | ke/parser.py:10 | an operator matches exactly where a token starts; its name is the whole token, its argument the token after ':' |
| ParseShape.MacroShape | ke/parser.py:14-15 | a macro is '#' and a token, or a range between two alphanumerics; '#' followed by a token character always is one |
| ParseShape.InnerLiteralShape | ke/parser.py:19-21 | a quoted literal is the text between a quote and the next copy of that quote |
| ParseShape.MoreOpsNamed | ke/parser.py:9-10 | every operator of a chain has a non-empty name |
| ParserFacts.ItemsAtOuter | ke/parser.py:7-18 | a top-level run of plain text is one outer literal |
| ParserFacts.ItemsAtBraces | ke/parser.py:7-8 | a top-level brace group is one item |
| ParserFacts.AtClose | ke/parser.py:8-13 | at a closing bracket no match, sequence or brace content starts, and no whitespace is skipped |
| ParserFacts.NoWhitespaceAfterOpen | ke/parser.py:8-24 | right after '[' and a character that is not blank, no whitespace is consumed |
| ParserFacts.SingleMatch | ke/parser.py:8-13 | one match right before ']' is the whole brace content |
| ParserFacts.BracesAround | ke/parser.py:8 | brackets around content that ends right before ']' are one brace group |
| ParserFacts.EmptyBraces | ke/parser.py:60-76 | brackets holding only whitespace parse and visit to `Nothing` |
| ParserFacts.EmptyBracesParse | ke/parser.py:51-76 | a pattern that is only brackets around whitespace parses to an empty concatenation |
| ParserFacts.SingleGroup | ke/parser.py:51-76 | a pattern that is one brace group parses to what the group means |
| ParserFacts.SingleMatchGroup | ke/parser.py:51-122 | a pattern that is one brace group around one match parses to what the match means |
| ParserFacts.Quoted | ke/parser.py:13-21 | a quoted text is an inner literal, and never an operator |
| ParserFacts.QuotedBraces | ke/parser.py:8 | a quoted text alone in brackets parses and visits to that literal (with lines 141-143 of the same file) |
| ParserFacts.QuotedInBraces | ke/parser.py:8-13 | a quoted text right before ']' is the whole brace content |
| ParserFacts.VisitQuoted | ke/parser.py:60-76 | a group holding one quoted text visits to that literal (with lines 141-143 of the same file) |
| ParserFacts.EmptyQuotedLiteral | ke/parser.py:19-21 | `['']` parses to the empty literal (with lines 141-143 of the same file) |
| ParserFacts.NamedMacroAt | ke/parser.py:14 | '#' and a token that is not a range is a named macro, and not an operator (with lines 124-128 of the same file) |
| ParserFacts.DefBeforeMacro | ke/parser.py:13-16 | `def` is tried before `macro`: a macro followed by '=' and a brace group is a definition |
| ParserFacts.DefinitionExample | ke/parser.py:134-136 | `[#a=['x']]` parses to the definition of `#a` as the literal `x` |
| ParserFacts.RunEndAt | ke/parser.py:18-27 | a run known to end at e is the longest run |
| EscapeFacts.ParseEscaped | vscode/kleenexp/src/extension.ts:27-29 | the escaped text of s parses to a concatenation of literals, one per run of brackets or of other text, whose texts joined give s back |
| RustEscapeFacts.RustParseEscaped | vscode/kleenexp/src/extension.ts:21-29 | the escaped text of s, read by the Rust parser that the extension's transpiler uses, is the concatenation of one literal per run of brackets or of other text (a lone run stands alone), and the runs joined give s back |
| RustEscapeFacts.RustLiterals | vscode/kleenexp/src/extension.ts:27-29 | the Rust literal for each run, in order |
| EscapeFacts.ItemsOfEscaped | vscode/kleenexp/src/extension.ts:27-29 | the top-level items of escaped text are one per run |
| EscapeFacts.VisitEscaped | vscode/kleenexp/src/extension.ts:27-29 | those items visit to one literal per run |
| EscapeFacts.LiteralsOf | vscode/kleenexp/src/extension.ts:27-29 | the literal for each run, in order |
| KeCompiler.OperatorShortNames | ke/compiler.py:149-162 | the short operator names stand for the same operators as the long ones, and the table has exactly these nine names |
| KeCompiler.FirstNonEmpty | ke/compiler.py:183-190 | the index of a non-empty compiled item, when there is one |
| KeCompiler.Survivors | ke/compiler.py:183 | the items kept after dropping the empty ones are all non-empty |
| KeCompiler.CommentStep | ke/compiler.py:243-244 | a `comment` operator compiles to the empty literal whatever its body |
| KeCompiler.OperatorBodyFails | ke/compiler.py:245 | an error in an operator's body is the operator's error |
| KeCompiler.OperatorBodyCompiles | ke/compiler.py:245-264 | once the body compiles, the operator is applied to it |
| KeCompiler.DefineAllScope | ke/compiler.py:178-181 | binding the definitions adds exactly their names, all new, and leaves every existing entry as it was |
| KeCompiler.DefineAllUndone | ke/compiler.py:178-185 | removing the defined names afterwards gives back the table as it was |
| KeCompiler.Compiler.constructor | ke/compiler.py:165-167 | a compiler starts with the builtin table |
| KeCompiler.Compiler.CompileAst | ke/compiler.py:170-171 | the result is `CompileF` of the AST in the table as it was, and on success the table is left as it was (with lines 306-315 of the same file) |
| KeCompiler.Compiler.CompileOperator | ke/compiler.py:242-264 | the result is the operator's meaning in the table as it was, and on success the table is unchanged |
| KeCompiler.Compiler.CompileMacro | ke/compiler.py:267-273 | a macro is the node bound to its name, or a CompileError naming it |
| KeCompiler.Compiler.CompileConcat | ke/compiler.py:174-192 | the result is the concatenation's meaning in the table as it was, and on success the definitions are unbound again |
| KeCompiler.Compiler.DefineMacros | ke/compiler.py:178-181 | the first loop binds each definition in turn, refusing a name already bound, and the table becomes the result |
| KeCompiler.Compiler.CompileItems | ke/compiler.py:182 | the second loop compiles every item that is not a definition, in order, and leaves the table as it was |
| KeCompiler.Compiler.UndefineMacros | ke/compiler.py:184-185 | the last loop removes exactly the defined names |
| KeCompiler.Compiler.CompileEither | ke/compiler.py:206-230 | the result is the alternation's meaning in the table as it was, and on success the table is unchanged |
| KeCompiler.MergeBranches | ke/compiler.py:209-214 | the merging loop collects exactly `MergedItems` of the branches: each one-character literal's text and each class's entries, in order |
| KeCompiler.EitherOfCompiled | ke/compiler.py:206-230 | the merge-or-count loop returns `EitherOf` of the compiled branches |
| KeCompiler.Compile | ke/compiler.py:165-167 | `compile` copies the builtin table, compiles, and wraps the result in an empty setting |
| KeCompiler.CompileF | ke/compiler.py:170-171 | `compile_ast` with the `converters` dispatch at lines 306-315, as a function of the AST and the visible macros; no contract of its own: Compiler.CompileAst is proved equal to it, and CompilerFacts states its scoping (UseBeforeDefinition, NestedDefinitionInvisible, NoRedefinition) and its concatenations (SilentConcat) |
| KeCompiler.CompileAll | ke/compiler.py:207 | the list comprehension over the branches; no contract of its own, CompileAllSpec states its meaning |
| KeCompiler.CompileAllSpec | ke/compiler.py:207 | the list comprehension over the branches succeeds exactly when every branch compiles, and then holds each branch's result in order |
| KeCompiler.OperatorOf | ke/compiler.py:242-264 | `compile_operator` once the body is compiled; no contract of its own: RepeatOperator gives the repeat operators, EmptyBodyRefused the empty-body error, and the `not` and `separate` lemmas the builtin operators |
| KeCompiler.InvertOperator | ke/compiler.py:132-146 | `invert_operator`; no contract of its own: InvertOperatorDefined gives the inputs it accepts, InvertSingleCharacter, InvertOperatorComplement and InvertOperatorInvolution what it means |
| KeCompiler.CompileRange | ke/compiler.py:276-293 | `compile_range`; no contract of its own: CompileRangeSpec gives when it succeeds and that the class matches exactly the characters between the ends |
| KeCompiler.SeparateBy | ke/compiler.py:92-127 | `compile_separate` with the test for the empty alternative chosen by a flag: as written, or as the comment at line 124 says |
| KeCompiler.SeparateAsWritten | ke/compiler.py:114-126 | `compile_separate` as written; no contract of its own: SeparateAsWrittenNullable shows a minimum of one becomes optional |
| KeCompiler.Separate | ke/compiler.py:92-127 | the corrected `compile_separate` of Findings row 2; no contract of its own: SeparateNullable proves it optional exactly when the minimum is zero, SeparateBadBounds gives the error object |
| KeCompiler.EitherOfAsWritten | ke/compiler.py:206-230 | `compile_either` after its branches compile, as written; no contract of its own: EitherAsWrittenDropsInversion shows an inverted class losing its inversion |
| KeCompiler.EitherOf | ke/compiler.py:206-230 | the corrected `compile_either` of Findings row 3; no contract of its own: EitherOfMerges proves the merged class matches exactly what some branch matches, EitherOfOptional gives the single-branch case, and EitherOfCompiled is proved equal to it |
| CompilerFacts.RepeatNameRoundTrip | ke/compiler.py:239-261 | the operator name `N`, `N+` or `N-M` is read back as the bounds it was written for |
| CompilerFacts.AtLeastName | ke/compiler.py:239 | `N+` reads as at least N |
| CompilerFacts.ExactlyName | ke/compiler.py:239 | `N` reads as exactly N |
| CompilerFacts.BetweenName | ke/compiler.py:239 | `N-M` reads as N to M |
| CompilerFacts.RepeatOperator | ke/compiler.py:250-261 | a repeat operator over a non-empty body is a greedy repetition with the bounds its name spells |
| CompilerFacts.EmptyBodyRefused | ke/compiler.py:247-249 | every operator other than `separate` refuses an empty body with a CompileError |
| CompilerFacts.CompileRangeSpec | ke/compiler.py:276-303 | a range compiles exactly when both ends are letters of one case or digits and the start is not after the end; the class matches exactly the characters between the ends; otherwise the unknown end is named |
| CompilerFacts.InvertOperatorDefined | ke/compiler.py:132-146 | `not` succeeds exactly on an unnamed one-character literal, a class or a boundary with a reverse, and refuses a name |
| CompilerFacts.InvertSingleCharacter | ke/compiler.py:135-136 | the inverse of a one-character literal matches every other character |
| CompilerFacts.InvertOperatorComplement | ke/compiler.py:138-139 | the inverse of a class matches exactly what the class does not |
| CompilerFacts.InvertOperatorInvolution | ke/compiler.py:132-146 | `not` twice gives back the class or the boundary |
| CompilerFacts.SeparateNullable | ke/compiler.py:92-127 | with a body that cannot match the empty string, the separated repetition matches the empty string exactly when its minimum is zero |
| CompilerFacts.SeparateAsWrittenNullable | ke/compiler.py:114-126 | as written, a separated repetition with minimum one also matches the empty string |
| CompilerFacts.SeparateAsWrittenExample | ke/compiler.py:114-126 | `[sep:, 1+ 'a']` as written matches the empty string, the corrected one does not |
| CompilerFacts.SeparateBadBounds | ke/compiler.py:103-104 | bounds in the wrong order give back an error object, whose rendering fails |
| CompilerFacts.SurvivorsSpec | ke/compiler.py:183 | the kept items are exactly the non-empty ones, as many as there are |
| CompilerFacts.ConcatOfSurvivors | ke/compiler.py:186-192 | no non-empty item gives the empty literal, one gives that item, more give their concatenation |
| CompilerFacts.SilentConcat | ke/compiler.py:174-196 | a concatenation of nothing and comments compiles to the empty literal (with lines 243-244 of the same file) |
| CompilerFacts.EitherOfOptional | ke/compiler.py:217-229 | with exactly one non-empty branch and branches that are not merged, the alternation is that branch made optional, greedy when it comes first |
| CompilerFacts.EitherOfMerges | ke/compiler.py:208-215 | merged branches give one non-inverted class that matches a character exactly when some branch does |
| CompilerFacts.EitherAsWrittenDropsInversion | ke/compiler.py:208-215 | as written, merging the literal `a` with the inverted class of `b` gives a class that matches `b`, which neither branch does |
| CompilerFacts.DefinitionMustBeFresh | ke/compiler.py:178-180 | a definition of a name that is already visible is refused |
| CompilerFacts.NoRedefinition | ke/compiler.py:178-180 | two definitions of one name in one concatenation are refused |
| CompilerFacts.UseBeforeDefinition | ke/compiler.py:174-192 | a macro may be used before the definition that follows it in the same concatenation |
| CompilerFacts.NestedDefinitionInvisible | ke/compiler.py:174-192 | a definition made in a nested concatenation is not visible after it |
| CompilerFacts.OuterDefinitionVisible | ke/compiler.py:174-192 | a definition is visible inside a nested concatenation |
| Builtins.NotNewlineInverts | ke/compiler.py:27-28 | `#not_newline` is the inversion of `#newline_character` |
| Builtins.LoopsDefineNothing | ke/compiler.py:54-89 | the three loops only invert or copy entries |
| Builtins.RunStops | ke/compiler.py:54-89 | a failing step ends the building of the table with that failure |
| Builtins.RunKeepsNames | ke/compiler.py:54-89 | no step removes a name |
| Builtins.RunListed | ke/compiler.py:54-89 | after the loops every entry is a node written out in the table or the inversion of one |
| Builtins.NodeTableListed | ke/compiler.py:23-89 | every macro of the table after the loops is a node written out or the inversion of one, and every written name is still there |
| Builtins.AddBuiltinMacroBinds | ke/compiler.py:318-322 | a definition binds its long name, and its short name when given, to the compiled node, and leaves every other entry as it was |
| Builtins.ApplyStep | ke/compiler.py:54-89 | one loop body updates the table as the step says, or fails with the KeyError or ValueError the source raises |
| Builtins.RunSteps | ke/compiler.py:54-89 | the loops apply their steps in order |
| Builtins.BuildBuiltinMacros | ke/compiler.py:23-89 | the module initialisation builds the builtin macro table (with lines 318-339 of the same file) |
| Builtins.CompileWithBuiltins | ke/compiler.py:165-167 | `compile` uses the built table, or fails as building it does |
| RustParse.WrapperIfNeeded | rust/src/parse.rs:40-53 | a single item stands for itself; any other number of items is wrapped in the concatenation or the alternation |
| RustParse.MultiSpace | rust/src/parse.rs:123-133 | skipping blanks never moves backwards or past the end |
| RustParse.Token | rust/src/parse.rs:149-159 | a token consumes at least one character |
| RustParse.ParseOp | rust/src/parse.rs:95-106 | an operator consumes input |
| RustParse.ParseLiteral | rust/src/parse.rs:141-147 | a literal consumes at least three characters: two quotes and some text |
| RustParse.ParseMacro | rust/src/parse.rs:161-171 | a macro consumes '#' and at least one more character |
| RustParse.ParseOps | rust/src/parse.rs:83-87 | `many1` gives at least one operator and consumes input |
| RustParse.WsOp | rust/src/parse.rs:83-87 | an operator with blanks around it consumes input (with lines 123-133 of the same file) |
| RustParse.MoreOps | rust/src/parse.rs:83-87 | further operators stay within the input |
| RustParse.ParseBraces | rust/src/parse.rs:55-66 | a brace group starts with '[' and ends with ']' |
| RustParse.Contents | rust/src/parse.rs:55-66 | the brace content stays within the input |
| RustParse.ParseOpsThenMatches | rust/src/parse.rs:68-81 | operators then matches consume input |
| RustParse.ParseEither | rust/src/parse.rs:108-115 | an alternation consumes input |
| RustParse.MoreBranches | rust/src/parse.rs:108-115 | further branches stay within the input |
| RustParse.ParseMatches | rust/src/parse.rs:117-121 | a sequence of matches consumes input |
| RustParse.MoreMatches | rust/src/parse.rs:117-121 | further matches stay within the input |
| RustParse.ParseMatch | rust/src/parse.rs:135-139 | a match consumes input |
| RustParse.ParseItems | rust/src/parse.rs:31-38 | the top-level items stay within the input |
| RustParse.Parse | rust/src/parse.rs:31-38 | parsing succeeds exactly when the items consume the whole input, and a single item stands for itself |
| RustParseFacts.RFoldNests | rust/src/parse.rs:68-81 | `rfold` nests the operators so that the first one is outermost |
| RustParseFacts.NestInjective | rust/src/parse.rs:68-81 | two operator chains nest to the same AST only when they are equal |
| RustParseFacts.OpsThenMatchesNest | rust/src/parse.rs:68-81 | the first operator is outermost and the last applies directly to the matches |
| RustParseFacts.TokenShape | rust/src/parse.rs:149-159 | a token is the longest run of token characters, and there is one exactly where a token character starts |
| RustParseFacts.OpAgrees | rust/src/parse.rs:95-106 | the Rust and the Python parser read an operator at the same positions, with the same name and argument |
| RustParseFacts.OpsStart | rust/src/parse.rs:83-87 | operators start, after blanks, with a token character, never with '#' or ':' |
| RustParseFacts.MacroAgrees | rust/src/parse.rs:161-171 | a Rust macro is a Python named macro without its '#', and where the Rust parser finds none the Python one finds none |
| RustParseFacts.LiteralShape | rust/src/parse.rs:141-147 | a literal is non-empty text up to the next copy of its own quote |
| RustParseFacts.LiteralAt | rust/src/parse.rs:141-147 | a quote, non-empty text without it, and the quote again is a literal |
| RustParseFacts.MatchStart | rust/src/parse.rs:135-139 | a match begins, after blanks, with a quote, '#' or '[' |
| RustParseFacts.AtClose | rust/src/parse.rs:55-66 | at a closing bracket nothing matches and the content is the empty concatenation (with lines 117-121 of the same file) |
| RustParseFacts.BracesAround | rust/src/parse.rs:55-66 | content followed by blanks and ']' is the whole brace group |
| RustParseFacts.SingleMatch | rust/src/parse.rs:117-121 | a single match closed by ']' is the brace content |
| RustParseFacts.EmptyBraces | rust/src/parse.rs:58 | brackets holding only blanks are an empty concatenation |
| RustParseFacts.EitherNotAtOp | rust/src/parse.rs:55-66 | where an operator starts, `either` finds nothing and the content is the operator chain (with lines 108-115 of the same file) |
| RustParseFacts.OpsAndEitherDontMix | rust/src/parse.rs:216-220 | braces starting with an operator hold the operators over the matches, closed right away, so a bar after them is refused |
| RustParseFacts.OpsThenBarRefused | rust/src/parse.rs:216-220 | an operator, a macro, a bar and another macro in one group are refused |
| RustParseFacts.TwoMacroBranches | rust/src/parse.rs:314-319 | a group holding macro a, a spaced bar and macro b (as in the tested `[#hello`, bar, `#world]`) parses to an either of the two macros, in order |
| RustParseFacts.UnclosedRefused | rust/src/parse.rs:211-214 | a pattern with an opening bracket that is never closed is refused |
| RustParseFacts.StrayCloseRefused | rust/src/parse.rs:211-214 | a closing bracket before any opening one is refused |
| RustParseFacts.EmptyPattern | rust/src/parse.rs:188 | the empty pattern is the empty concatenation |
| RustParseFacts.PlainText | rust/src/parse.rs:189 | text without brackets is one literal |
| RustParseFacts.EmptyBracesPattern | rust/src/parse.rs:191-192 | `[]`, `[ ]` and the like are the empty concatenation |
| RustParseFacts.SingleMacro | rust/src/parse.rs:224 | `[#name]` is the macro `name` |
| RustParseFacts.SingleLiteral | rust/src/parse.rs:237 | `['text']` and `["text"]` are the literal text |
| RustParseFacts.WholeGroup | rust/src/parse.rs:31-38 | one brace group spanning the whole pattern is the parse result |
| RustCompiler.EscapeChar | rust/src/compiler.rs:40-56 | one character becomes one or two: itself, a backslash and itself, or a backslash and the letter of a control character; RustCompilerFacts.UnescapeEscapeChar proves each reads back as the character |
| RustCompiler.Escape | rust/src/compiler.rs:40-56 | the corrected `escape` of Findings row 4; no contract of its own: RustCompilerFacts.EscapeRoundTrip proves its output matches exactly the text |
| RustCompiler.EscapeAsWritten | rust/src/compiler.rs:40-56 | `escape` as written; no contract of its own: DotNotEscaped shows '.' copied, EscapeAgreesWithoutDots that it agrees with Escape elsewhere |
| RustCompiler.ToRegex | rust/src/compiler.rs:16-37 | `Regexable::to_regex`, with literals escaped by the corrected Escape of Findings row 4; no contract of its own: RegexMatchesText proves the regex matches exactly the node's text, WrapsUnlessSingleByte gives the wrapping |
| RustCompiler.Compile | rust/src/compiler.rs:70-82 | `Ast::compile`; no contract of its own: CompileOk proves it succeeds exactly on concatenations of literals |
| RustCompiler.CompileAst | rust/src/compiler.rs:66-68 | `compile`: compile then render, through the corrected Escape; no contract of its own: PlainTextRegex, QuotedRegex and EmptyBracesRegex give its output from a pattern |
| RustCompiler.CompileAll | rust/src/compiler.rs:74 | compiling the items gives one regex node per item |
| RustCompilerFacts.CompileOk | rust/src/compiler.rs:71-82 | the back end succeeds exactly on concatenations of literals; the other nodes are not implemented |
| RustCompilerFacts.CompileAllOk | rust/src/compiler.rs:71-82 | a list compiles exactly when every item does |
| RustCompilerFacts.EscapeRoundTrip | rust/src/compiler.rs:40-56 | the corrected escaped text, read as a regex, matches exactly the text |
| RustCompilerFacts.DotNotEscaped | rust/src/compiler.rs:40-56 | as written, '.' is copied unchanged, so the escaped text is not read back as the text |
| RustCompilerFacts.EscapeAgreesWithoutDots | rust/src/compiler.rs:40-56 | for text without '.', the escape as written and the corrected one agree |
| RustCompilerFacts.UnescapeEscapeChar | rust/src/compiler.rs:40-56 | each escaped character reads back as itself |
| RustCompilerFacts.RegexMatchesText | rust/src/compiler.rs:17-37 | unwrapped, the regex of a node matches exactly the text it stands for (with the corrected Escape) |
| RustCompilerFacts.RenderAllMatchesTexts | rust/src/compiler.rs:17-37 | the joined regexes of a concatenation match exactly the joined texts (with the corrected Escape) |
| RustCompilerFacts.Utf8LengthOne | rust/src/compiler.rs:19 | `len() == 1` on a Rust string holds exactly for one ASCII character |
| RustCompilerFacts.WrapsUnlessSingleByte | rust/src/compiler.rs:17-37 | asked to wrap, a literal gets a group unless it is one ASCII character, and a concatenation always does |
| RustCompilerFacts.SingleItemUnwrapped | rust/src/compiler.rs:66-82 | unwrapping a single item, as the parser does, does not change the regex |
| RustCompilerFacts.LiteralRegex | rust/src/compiler.rs:66-82 | a literal compiles to its text under the corrected Escape |
| RustCompilerFacts.PlainTextRegex | rust/src/compiler.rs:66-82 | text without brackets compiles to a regex that matches exactly that text (with the corrected Escape) |
| RustCompilerFacts.EmptyBracesRegex | rust/src/compiler.rs:66-82 | brackets holding only blanks compile to the empty regex |
| RustCompilerFacts.QuotedRegex | rust/src/compiler.rs:66-82 | a quoted literal in brackets compiles to its text under the corrected Escape |
| VsCode.IndexOf | vscode/kleenexp/src/extension.ts:33-38 | the first position of k in the list, or none exactly when k is absent |
| VsCode.InputHistory.constructor | vscode/kleenexp/src/extension.ts:3-4 | the history starts with the one sample pattern, within the bound |
| VsCode.InputHistory.UpdateHistory | vscode/kleenexp/src/extension.ts:31-43 | the list becomes `Updated(old list, k)`, and a list within the bound stays within it |
| VsCode.UpdatedFront | vscode/kleenexp/src/extension.ts:31-43 | the entry just used is first |
| VsCode.UpdatedBounded | vscode/kleenexp/src/extension.ts:31-43 | a list within the bound stays within it, and grows by one exactly when k is new and there is room |
| VsCode.UpdatedOfFront | vscode/kleenexp/src/extension.ts:31-43 | using the entry that is already first changes nothing |
| VsCode.UpdatedMultiset | vscode/kleenexp/src/extension.ts:31-43 | below the bound, only one copy of k is removed: the entries are the old ones, plus k when it was new |
| VsCode.UpdatedMovesToFront | vscode/kleenexp/src/extension.ts:31-43 | on a list without duplicates, an update moves k to the front and keeps every other entry in order, cut at the bound |
| VsCode.UpdatedNoDuplicates | vscode/kleenexp/src/extension.ts:31-43 | updates keep the list free of duplicates |
| VsCode.Filter | vscode/kleenexp/src/extension.ts:31-43 | the list without any copy of k, keeping only entries of the list |
| VsCode.WithoutFirstIsFilter | vscode/kleenexp/src/extension.ts:33-38 | in a list without duplicates, removing the first copy of k removes every copy |
| VsCode.WithoutFirst | vscode/kleenexp/src/extension.ts:33-38 | the list with the first copy of k spliced out; no contract of its own: WithoutFirstIsFilter proves it removes every copy in a list without duplicates |
| VsCode.Updated | vscode/kleenexp/src/extension.ts:31-43 | the history after `updateHistory(k)`; no contract of its own: UpdatedFront, UpdatedBounded, UpdatedMovesToFront and UpdatedNoDuplicates give its meaning, and InputHistory.UpdateHistory is proved equal to it |
| VsCode.RunLength | vscode/kleenexp/src/extension.ts:27-29 | the first run is the longest prefix of brackets, or of other characters |
| VsCode.Runs | vscode/kleenexp/src/extension.ts:27-29 | the maximal runs are never empty |
| VsCode.JoinRuns | vscode/kleenexp/src/extension.ts:27-29 | the runs joined give the text back |
| VsCode.EscapeKleenExpLiteral | vscode/kleenexp/src/extension.ts:27-29 | text without brackets is left as it is; what the escaped text means is proved in EscapeFacts.ParseEscaped and RustEscapeFacts.RustParseEscaped, which parse it back to one literal per run |

## Left out

- I/O, user interface and packaging: the VS Code commands, the quick pick, the editor calls, `lib.rs`, the WebAssembly bindings, the demo and the command-line entry points are not part of this model.
- Parse error messages and the error types of parsimonious and nom: a parse failure is an `Err` of kind ParseError, and the wrapping of errors raised during visitation into visitation errors is not modelled.
- The debug print at ke/compiler.py:246 is output only and is left out.
- Character categories and shorthand classes are modelled on ASCII; Unicode case and digit categories are not.
- `lookahead` and `lookbehind` name `asm.Lookahead` and `asm.Lookbehind` in the builtin operator table (ke/compiler.py:153-154), and ke/asm.py defines neither, so importing ke/compiler.py fails with an AttributeError before anything compiles. The model confines that failure to the two operators: KeCompiler.OperatorOf returns an AttributeError for them, and every other operator compiles as in the source.
- The byte-string branch of `Literal.escape` (ke/asm.py:46-48) is not modelled; literals are strings of characters.
- `invert_operator`'s error branch (ke/compiler.py:140-146) calls `to_regex` with a keyword the nodes do not accept, so Python raises a TypeError (an AttributeError for an error object) before the intended CompileError is built. KeCompiler.InvertOperator returns those same errors, and the intended message is not modelled.
- The Rust `RegexFlavor` has a single flavour and is not modelled. RustParse.Ast has a `Range` case, but no parser rule builds it, and RustCompiler.Compile maps it to Unimplemented, as rust/src/compiler.rs does with `todo!`.
- RustCompiler.ToRegex, and with it RustCompiler.CompileAst and the lemmas RustCompilerFacts.RegexMatchesText, RenderAllMatchesTexts, LiteralRegex, PlainTextRegex and QuotedRegex, render literals with the corrected RustCompiler.Escape of Findings row 4, not with the `escape` of rust/src/compiler.rs:40-56. On text with a '.' the source's regex differs (`a.b` where the model gives `a\.b`); on text without '.' the two escapes agree (RustCompilerFacts.EscapeAgreesWithoutDots), so there these members state what the source computes.
- Builtins.BuildBuiltinMacros: the model builds the table by the same steps, but does not prove that the concrete table builds without error or that its ten kleenexp definitions parse and compile; that would need evaluating the parser and compiler on those strings.
- NumRange.SequenceOfNinesInsteadOfZeros: requires a > 0; on 0 the generator never ends, and its one caller returns before calling it with 0.
- NumRangeRegex.NumberRangeToRegex: as written, a range whose search returns below a makes the function call itself on the same range again, which CPython ends with a RecursionError; the model uses the corrected search, and the non-termination as written is shown for [20, 29] only.
- `compile_either` merges the branches into one class whenever each is one character or a class (ke/compiler.py:208-215, modelled as KeCompiler.EitherOfAsWritten). This drops the inversion of an inverted class, so the rest of the model uses the corrected merge KeCompiler.EitherOf (Findings row 3).
- `compile_separate` tests the reduced minimum `max(0, a-1)` for the empty alternative (ke/compiler.py:114-126, modelled as KeCompiler.SeparateAsWritten), while its comment at ke/compiler.py:124 says the empty literal is added when the count starts from 0. The rest of the model follows that comment with KeCompiler.Separate (Findings row 2).

## Findings

| source | as written | input that shows it | evidently intended | confidence | as-written member | corrected member |
|---|---|---|---|---|---|---|
| ke/numrange.py:42-53 | `_try_replace` keeps a candidate that is at most b even when it is below a, so `max_single_range_below` can return a number below a | `number_range_to_regex(20, 29)`: the search returns 19 and the function calls itself on (20, 29) again, until CPython raises RecursionError | the end of the first single range lies between a and b, and the recursion goes on from it | not executed | NumRange.NumberRangeAsWrittenDoesNotTerminate | NumRange.MaxSingleRangeBelow |
| ke/compiler.py:114-126 | the empty alternative is added when the reduced minimum `max(0, a-1)` is 0, so a minimum of 1 also becomes optional | `[sep:, 1+ 'a']` matches the empty string | only a repetition that may occur zero times matches the empty string | not executed | CompilerFacts.SeparateAsWrittenExample | KeCompiler.Separate |
| ke/compiler.py:208-215 | branches are merged into one class when each is one character or a class, inverted classes included, and their inversion is lost | the alternation of `'a'` and `[not 'b']` becomes a class that matches `b` | merging keeps what the alternation matches | not executed | CompilerFacts.EitherAsWrittenDropsInversion | KeCompiler.EitherOf |
| rust/src/compiler.rs:40-56 | `escape` leaves '.' unescaped | the literal `a.b` compiles to `a.b`, in which '.' matches any character | a literal compiles to a regex matching exactly that text | not executed | RustCompilerFacts.DotNotEscaped | RustCompiler.Escape |
