# pomsky parser core in Dafny

This project models the core of the pomsky regular-expression language:

- the token-level parsers of `pomsky-lib/src/parse/parsers.rs`;
- the parse warnings of `pomsky-syntax/src/warning.rs`;
- the grapheme expression of `rulex-lib/src/grapheme.rs`.

pomsky parses with nom combinators over a token stream. Every parser has
one of three outcomes:
- success, with the remaining input;
- a recoverable `Error`, which makes `alt` try its next branch and makes
  `many0` stop;
- a fatal `Failure`, which `cut` produces and every combinator passes on.

The model keeps these three outcomes (`Nom.PResult`) and writes each
parser as a function over an `Input` of tokens. The parsers that loop in
the source are methods with loop invariants, each proved equal to a
specification function:
- the digit loop of `parse_number`;
- the unescaping loop of `parse_quoted_text`;
- the duplicate-`let` check and the statement wrapping of `parse_modified`;
- the repetition fold of `parse_fixes`;
- the `add` fold of `parse_char_group`.

The properties of the source are proved as lemmas about those functions:
- range bounds compare in numeric order;
- code points round-trip through their hex text;
- escaping and unescaping are inverse;
- a displayed warning reads back to its message and byte range;
- the duplicate check and the repetition check accept exactly the inputs
  they should, and wrapping loses nothing.

Strings are sequences of Unicode scalar values. Wherever the Rust code
works on bytes, the model goes through an explicit UTF-8 encoder
(`Text.Utf8`). This covers `str::bytes`, the byte slicing of
`strip_first_last` and `&s[2..]`, and the byte offset in
`InvalidEscapeInStringAt`. Rust's unsigned `from_str`/`from_str_radix`
is modelled with its `+` sign, its empty-input and digit errors, and its
overflow check against `u8::MAX` or `u32::MAX` (`RustInt`).

Modules, one per file:
- `wrappers.dfy`, `text.dfy`, `spans.dfy`, `tokens.dfy`, `errors.dfy`,
  `ast.dfy`, `rust_int.dfy`: the values the parser works on;
- `nom.dfy`: parser outcomes and combinators;
- `quoted.dfy`, `numbers.dfy`, `ranges.dfy`, `codepoint.dfy`,
  `atoms.dfy`, `charclass.dfy`, `statements.dfy`, `repetitions.dfy`,
  `alternatives.dfy`: the parsers;
- `warning.dfy`: warnings;
- `grapheme.dfy`: the grapheme expression.

## Model

| member | source | states |
|---|---|---|
| RustInt.ParseRadixString | pomsky-lib/src/parse/parsers.rs:473 | The digits of any `n` in any radix parse back to `n` when `n` fits the integer type, and to an overflow error otherwise. |
| RustInt.FromStrRadix | pomsky-lib/src/parse/parsers.rs:473 | A parsed value never exceeds the integer type's maximum. |
| Quoted.StripFirstLast | pomsky-lib/src/parse/parsers.rs:686-688 | The inner text is two characters shorter, and its bytes are the token's bytes without the first and the last. |
| Quoted.ParseQuotedText | pomsky-lib/src/parse/parsers.rs:690-730 | The decoding loop gives exactly the specified decoding: a double-quoted literal is unescaped, or fails with `InvalidEscapeInStringAt`. A single-quoted literal is taken as it is. |
| Quoted.ErrorOffset | pomsky-lib/src/parse/parsers.rs:712-714 | `input.len() - s.len()` is the byte offset of the bad backslash in the inner text, plus two. |
| Quoted.UnescapeEscape | pomsky-lib/src/parse/parsers.rs:696-725 | Decoding the escaped form of any string gives that string back. |
| Quoted.QuotedEscapeRoundTrip | pomsky-lib/src/parse/parsers.rs:690-729 | Every string is the content of some double-quoted literal. |
| Quoted.UnescapePlain | pomsky-lib/src/parse/parsers.rs:718-721 | Text without backslashes is copied unchanged. |
| Quoted.UnescapeError | pomsky-lib/src/parse/parsers.rs:711-715 | A decoding error points at a backslash followed by neither `\` nor `"`. Everything before that backslash decodes, and the offset is that prefix's byte length. |
| Numbers.ParseNumber | pomsky-lib/src/parse/parsers.rs:522-537 | The byte loop returns exactly the digit specification: one digit per byte, or `InvalidDigit`. |
| Numbers.NumberDigitsMeaning | pomsky-lib/src/parse/parsers.rs:522-537 | Parsing succeeds iff every byte is a digit (`0-9`, `a-z`, `A-Z`) below the radix. The digits are the bytes' values in order. The only error is `InvalidDigit`. |
| Numbers.ParseDigitsText | pomsky-lib/src/parse/parsers.rs:522-537 | Writing digits below the radix as text and parsing them gives the same digits. |
| Numbers.LexLessIsValueLess | pomsky-lib/src/parse/parsers.rs:558 | For equal lengths, Rust's `Vec<u8>` comparison of digit vectors is the comparison of the numbers they denote. |
| Numbers.LongerIsLarger | pomsky-lib/src/parse/parsers.rs:558 | Without a leading zero, more digits denote a larger number. |
| Ranges.BaseValue | pomsky-lib/src/parse/parsers.rs:508-515 | An accepted base lies in 2..=36. |
| Ranges.BaseValueOfDecimal | pomsky-lib/src/parse/parsers.rs:508-515 | For every decimal base `n`: `TooLarge` above 36 (including beyond `u8`), `TooSmall` below 2, else `n`. |
| Ranges.ParseBase | pomsky-lib/src/parse/parsers.rs:502-520 | Recoverable failure iff the keyword `base` is absent. After the keyword, errors are fatal. A parsed base lies in 2..=36. |
| Ranges.RangeFromBounds | pomsky-lib/src/parse/parsers.rs:547-562 | `Ok` iff both bounds are digit strings in the chosen radix (the base, or 10) and the range does not descend. The range then holds both bounds' digits and the radix, and spans up to the base clause or the end bound. |
| Ranges.RangeFromBoundsMeaning | pomsky-lib/src/parse/parsers.rs:547-562 | The radix is the base or 10. A bad digit fails at that bound's span. Otherwise the result is `Ok` iff the start is not after the end, with both bounds' digits and the radix. A descending range fails with `RangeIsNotIncreasing` over both bounds. |
| Ranges.RangeCheckIsNumericOrder | pomsky-lib/src/parse/parsers.rs:558-560 | For bounds without leading zeros, the range check accepts iff start <= end as numbers. |
| Ranges.ParseRange | pomsky-lib/src/parse/parsers.rs:501-572 | Recoverable failure iff the keyword `range` is absent. A success is a range rule. |
| Ranges.RangeAfterKeyword | pomsky-lib/src/parse/parsers.rs:542-566 | After the keyword, every error is fatal. A success is a range rule. |
| Ranges.RangeWithBounds | pomsky-lib/src/parse/parsers.rs:545-565 | A missing base is not an error. Every error of the base or of the bounds is fatal. |
| Ranges.ParseBaseRejects | pomsky-lib/src/parse/parsers.rs:502-520 | `base` and a decimal number outside 2..=36 fail fatally at the number, with `TooLarge` or `TooSmall`. |
| Ranges.ParseRangeRejectsBase | pomsky-lib/src/parse/parsers.rs:502-520 | A base outside 2..=36 makes the whole literal fail fatally at the number, with `TooLarge` or `TooSmall`. |
| CodePoints.CharFrom | pomsky-lib/src/parse/parsers.rs:475 | `char::try_from` succeeds iff the number is a scalar value (at most 0x10FFFF, not a surrogate), and it keeps the value. |
| CodePoints.CodePointValue | pomsky-lib/src/parse/parsers.rs:468-478 | Every failure is `CodePoint(Invalid)`. A success had at most 6 hex bytes, and its char is the `u32` those bytes denote in hex. Conversely, at most 6 bytes that `from_str_radix` reads as a hex `u32` (either case of digit, leading zeros allowed) are accepted iff that number is a scalar value, with that char. |
| CodePoints.IdentCodePointValue | pomsky-lib/src/parse/parsers.rs:484-495 | Without a leading `U`, the result is `ExpectedToken(CodePoint)`. With it, text after the `U` that is no hex `u32` also gives `ExpectedToken(CodePoint)`. A hex number succeeds iff it is a scalar value, with that char; otherwise it gives `CodePoint(Invalid)`. |
| CodePoints.ParseCodePoint | pomsky-lib/src/parse/parsers.rs:464-499 | Only a code-point token fails fatally, with `CodePoint(Invalid)` at the token. A success consumes one token and carries its span. Without a code-point or identifier token, the failure is recoverable. |
| CodePoints.CodePointRoundTrip | pomsky-lib/src/parse/parsers.rs:469-477 | `U+` and the hex digits of any char parse back to that char. |
| CodePoints.IdentCodePointRoundTrip | pomsky-lib/src/parse/parsers.rs:485-488 | `U` and the hex digits of any char parse back to that char. |
| CodePoints.AboveUnicodeRejected | pomsky-lib/src/parse/parsers.rs:468-495 | A number above 0x10FFFF that fits six hex digits is `CodePoint(Invalid)` in both forms. |
| CodePoints.SurrogatesRejected | pomsky-lib/src/parse/parsers.rs:464-499 | A surrogate is `CodePoint(Invalid)`: fatal in the token form, recoverable in the identifier form. |
| Atoms.ParseString | pomsky-lib/src/parse/parsers.rs:329-335 | Recoverable failure iff the next token is not a string. A success is a literal with the token's span. A decoding error is fatal at the token. |
| Atoms.ParseStringEscaped | pomsky-lib/src/parse/parsers.rs:329-335 | A literal holding the escaped form of `t` parses to the literal `t`. |
| Atoms.ParseIdent | pomsky-lib/src/parse/parsers.rs:574-586 | Succeeds iff the next token is an identifier that is not one of the eleven keywords. A keyword is a fatal `UnexpectedKeyword` at the token. A non-identifier is recoverable. |
| Atoms.ParseVariable | pomsky-lib/src/parse/parsers.rs:588-590 | Succeeds exactly when `parse_ident` does, with a variable of the identifier's name and span. Otherwise it has the same error. |
| Atoms.ParseLetName | pomsky-lib/src/parse/parsers.rs:85-91 | Never recoverable. A keyword becomes `KeywordAfterLet` at the token. A missing identifier stays `ExpectedToken(Identifier)`. |
| Atoms.SpecialChar | pomsky-lib/src/parse/parsers.rs:596-604 | Every named special character is a control character. |
| Atoms.SpecialCharNames | pomsky-lib/src/parse/parsers.rs:596-604 | The six names (`n r t a e f`) and their characters correspond one to one. |
| Atoms.ParseSpecialChar | pomsky-lib/src/parse/parsers.rs:592-608 | Never fatal. It succeeds iff the identifier names a special character. Any other identifier gives `Incomplete` at the token. |
| Atoms.KeywordsAreReserved | pomsky-lib/src/parse/parsers.rs:574-591 | A keyword is never a variable and never a `let` name; each case has its own error. |
| CharClasses.ToChar | pomsky-lib/src/parse/parsers.rs:345-358 | A char stays itself. A string must decode to exactly one char. A decoding error passes through. Otherwise the error is `Empty` for no char and `TooManyCodePoints` for more. |
| CharClasses.ToCharOfLiteral | pomsky-lib/src/parse/parsers.rs:345-358 | A one-character literal, in single quotes or escaped in double quotes, is that character. |
| CharClasses.ParseStringOrChar | pomsky-lib/src/parse/parsers.rs:361-368 | A success consumes one token. The recoverable error is `ExpectedCodePointOrChar` at the next token. Only a code-point token can fail fatally. |
| CharClasses.ParseCharsOrRange | pomsky-lib/src/parse/parsers.rs:370-399 | Recoverable iff no endpoint starts the input. Without a dash after it, the result is the single endpoint's outcome. A fatal error of the first endpoint (an invalid `U+` token) is passed on unchanged. After a dash, a missing second endpoint is fatal, and otherwise the result is the range's outcome. Every error after the first endpoint is read is fatal. A success is a list of items and consumes input. |
| CharClasses.RangeOfEndpoints | pomsky-lib/src/parse/parsers.rs:380-389 | An endpoint that is not one char fails at its own span, the first endpoint checked first. For two chars the result is `Ok` iff they do not descend: then it is the single range item; otherwise `DescendingRange(f, l)` over both endpoints. |
| CharClasses.SingleEndpoint | pomsky-lib/src/parse/parsers.rs:390-397 | A char is that one item. A string is one item per char of its decoded text, in order, or its decoding error at the endpoint's span. |
| CharClasses.StringEndpoint | pomsky-lib/src/parse/parsers.rs:362 | A string token is read as a string endpoint. |
| CharClasses.CharRangeOrder | pomsky-lib/src/parse/parsers.rs:376-389 | `'f'-'l'` is the range item iff f <= l. Otherwise it fails fatally with `DescendingRange(f, l)` over both endpoints. |
| CharClasses.ParseDot | pomsky-lib/src/parse/parsers.rs:439-443 | Succeeds iff the next token is `.`, giving the dot group. It is never fatal. |
| CharClasses.ParseNamedItem | pomsky-lib/src/parse/parsers.rs:415-424 | Recoverable iff no identifier follows the optional `!`. Otherwise the outcome is the resolver's answer for the name and the negation. A rejection is fatal at the start of the item. |
| CharClasses.DotIsNoEndpoint | pomsky-lib/src/parse/parsers.rs:360-367 | A `.` starts no endpoint. |
| CharClasses.ParseGroupItem | pomsky-lib/src/parse/parsers.rs:412-426 | The recoverable error is `CharClass(Invalid)` at the next token. A `.` is the dot item. |
| CharClasses.GroupItems | pomsky-lib/src/parse/parsers.rs:412-426 | `many0` never fails recoverably and leaves a suffix. |
| CharClasses.CharGroupAdd | pomsky-lib/src/parse/parsers.rs:431-435 | Adding succeeds iff both groups are item lists, and it concatenates their items. Otherwise the error is `Unallowed`. |
| CharClasses.FoldGroupsMeaning | pomsky-lib/src/parse/parsers.rs:428-436 | The fold succeeds iff there is at most one group or every group is a list of items. In the latter case it holds all their items in order. The only error is `Unallowed`. |
| CharClasses.FoldGroupsSticky | pomsky-lib/src/parse/parsers.rs:431-435 | Once adding fails, the outcome is that error. |
| CharClasses.CombineGroups | pomsky-lib/src/parse/parsers.rs:428-436 | The loop computes exactly the fold. |
| CharClasses.ParseCharGroup | pomsky-lib/src/parse/parsers.rs:409-437 | Never recoverable; leaves a suffix. A fatal item error is passed on. Items that are all item lists give one list holding all their items in order. A single item is the group itself. Several items including a dot fail with `CharClass(Unallowed)`, spanning from the first item to the start of what follows the items. |
| CharClasses.ItemsStep | pomsky-lib/src/parse/parsers.rs:412 | One `many0` step: an item, then whatever the loop reads after it. |
| CharClasses.CharClassOfItems | pomsky-lib/src/parse/parsers.rs:409-461 | When every item read is an item list and `]` follows, the class holds all the items in order and spans the brackets. With no items at all, it is `CharClass(Empty)` at the `[`. |
| CharClasses.EmptyStringItem | pomsky-lib/src/parse/parsers.rs:370-399 | A string that decodes to nothing, with no dash after it, is one item holding no characters. |
| CharClasses.EmptyItemsClass | pomsky-lib/src/parse/parsers.rs:445-461 | A single empty item list before `]` is `CharClass(Empty)` at the `[`. |
| CharClasses.EmptyStringClass | pomsky-lib/src/parse/parsers.rs:445-461 | `['']` fails fatally with `CharClass(Empty)` at the `[`, as `[]` does. |
| CharClasses.ParseCharClass | pomsky-lib/src/parse/parsers.rs:445-461 | Recoverable iff there is no `[`. A success is a class that is not empty. `[^` is `CaretInGroup` at the caret. Otherwise it gives one of four outcomes. A group error is passed on. A missing `]` is `ExpectedToken(CloseBracket)` there. An empty item list is `CharClass(Empty)` at the `[`. Any other group is the class of exactly that group, spanning `[` to `]`. |
| CharClasses.NoItemsBeforeClose | pomsky-lib/src/parse/parsers.rs:412-429 | Before `]`, the items loop reads nothing, the group is the empty item list and nothing is consumed. |
| CharClasses.EmptyAndNegatedClasses | pomsky-lib/src/parse/parsers.rs:401-461 | `[]` fails fatally with `CharClass(Empty)` at the `[`. `[^` fails with `CaretInGroup` at the caret. |
| Statements.ParseModifierStmt | pomsky-lib/src/parse/parsers.rs:66-82 | Never fatal. A success is `enable`/`disable` and consumes input. |
| Statements.ParseLetStmt | pomsky-lib/src/parse/parsers.rs:83-99 | Recoverable iff the keyword `let` is absent. A success binds a name that is not a keyword. |
| Statements.ParseStmt | pomsky-lib/src/parse/parsers.rs:65-100 | A success consumes input. |
| Statements.ParseStmts | pomsky-lib/src/parse/parsers.rs:65-100 | `many0` never fails recoverably and leaves a suffix. |
| Statements.DuplicateAfterMeaning | pomsky-lib/src/parse/parsers.rs:104-114 | No duplicate is found iff the `let` names are pairwise distinct and not yet seen. |
| Statements.FirstDuplicateMeaning | pomsky-lib/src/parse/parsers.rs:104-114 | A duplicate is reported iff two `let` statements bind the same name. |
| Statements.DuplicateAfterSpan | pomsky-lib/src/parse/parsers.rs:104-114 | The reported span is the name span of the first `let` that rebinds a name: the `let`s before it bind distinct names not yet seen, and its name was seen or bound by one of them. |
| Statements.CheckLets | pomsky-lib/src/parse/parsers.rs:104-114 | The loop over the statements with the set of names seen computes exactly the first duplicate. |
| Statements.WrapStmts | pomsky-lib/src/parse/parsers.rs:116-119 | The first statement is outermost and spans from its start to the end of the body. |
| Statements.PeelWrap | pomsky-lib/src/parse/parsers.rs:116-119 | Wrapping loses nothing: peeling gives back every statement, in order, and the body. |
| Statements.WrapInStmts | pomsky-lib/src/parse/parsers.rs:116-119 | The reverse loop builds exactly that wrapping. |
| Statements.ModifiedResult | pomsky-lib/src/parse/parsers.rs:103-121 | `Ok` iff all `let` names are distinct, and then the result peels back to the statements and the body. Otherwise `LetBindingExists` at the name of the first rebinding `let`. |
| Statements.ModifiedClosure | pomsky-lib/src/parse/parsers.rs:103-121 | The imperative closure computes that outcome: `Ok` iff all `let` names are distinct, peeling back to the statements and the body; otherwise `LetBindingExists` at the name of the first rebinding `let`. |
| Statements.ParseModified | pomsky-lib/src/parse/parsers.rs:57-124 | A success leaves a suffix. Once the statements are read, the result is recoverable iff the rule after them is. |
| Statements.ParseModifiedMeaning | pomsky-lib/src/parse/parsers.rs:57-124 | Success iff no name is bound twice, with the rule wrapped in every statement. Otherwise a fatal `LetBindingExists` at the name of the first `let` that rebinds a name. |
| Repetitions.ParseU32 | pomsky-lib/src/parse/parsers.rs:265-267 | Recoverable iff there is no number token. A number that does not convert is a fatal `TooLarge`. A value is at most `u32::MAX`. |
| Repetitions.TryFromBounds | pomsky-lib/src/parse/parsers.rs:275 | The bounds are accepted iff they do not descend. Otherwise the error is `NotAscending`. |
| Repetitions.BracedBody | pomsky-lib/src/parse/parsers.rs:272-279 | The recoverable error is `ExpectedToken(Number)`; a success consumes input. |
| Repetitions.ParseBracedRepetition | pomsky-lib/src/parse/parsers.rs:262-284 | Recoverable iff there is no `{`. Everything after it is committed. The syntax is `Other`. |
| Repetitions.ClassifyRepSyntax | pomsky-lib/src/parse/parsers.rs:251-256 | A written quantifier makes the repetition explicit. Otherwise `?` and `+` keep their own class, and everything else is other. |
| Repetitions.ParseRepOperator | pomsky-lib/src/parse/parsers.rs:231-238 | Recoverable iff the next token is none of `?`, `+`, `*`, `{`. `?`, `+` and `*` are one token each, with kinds 0..1, 1.. and 0.. and syntax `?`, `+` and other. `{` is the braced repetition, of syntax other. |
| Repetitions.ParseRepetition | pomsky-lib/src/parse/parsers.rs:226-260 | Recoverable iff the next token is none of `?`, `+`, `*`, `{`. A success consumes input. |
| Repetitions.ParseRepetitionMeaning | pomsky-lib/src/parse/parsers.rs:226-260 | Succeeds iff the operator does, with the operator's kind. The quantifier is `greedy` or `lazy` if one follows, consumed, and otherwise the default. The syntax is explicit with a quantifier, else `?` or `+` for those operators, else other. The span runs from the operator to the quantifier. |
| Repetitions.ParseRepetitions | pomsky-lib/src/parse/parsers.rs:175 | `many0` never fails recoverably and leaves a suffix. |
| Repetitions.Violation | pomsky-lib/src/parse/parsers.rs:185-196 | A `?` or `+` after anything but an explicit quantifier is rejected, with the matching error. |
| Repetitions.RepeatClosure | pomsky-lib/src/parse/parsers.rs:176-204 | The loop over the repetitions computes exactly the specified outcome, whose meaning `RepeatedResultMeaning` states. |
| Repetitions.FoldRepsMeaning | pomsky-lib/src/parse/parsers.rs:183-203 | The fold succeeds iff no repetition follows another in a rejected way, and then nests them all. |
| Repetitions.FirstRepetitionAllowed | pomsky-lib/src/parse/parsers.rs:183-188 | A single repetition after an atom is always accepted. |
| Repetitions.NestSnoc | pomsky-lib/src/parse/parsers.rs:199-201 | The last repetition is outermost. |
| Repetitions.PeelNest | pomsky-lib/src/parse/parsers.rs:183-203 | Nesting loses nothing: peeling gives every repetition in order, and the atom. |
| Repetitions.FoldRepsRejects | pomsky-lib/src/parse/parsers.rs:183-194 | A failed fold names the first rejected repetition. Every repetition before it is accepted. The error is `QuestionMarkAfterRepetition` or `PlusAfterRepetition`, as that repetition is written, at its own span. |
| Repetitions.RepeatedResultMeaning | pomsky-lib/src/parse/parsers.rs:176-204 | Accepted iff there are at most 64 repetitions and none is rejected. The result then holds them all in order around the atom. More than 64 repetitions fail with `RecursionLimit`, from the 65th repetition to the last, before any other check. Otherwise an error is that of the first rejected repetition, at its span. |
| Repetitions.ParseRepeatedAtom | pomsky-lib/src/parse/parsers.rs:174-206 | Recoverable iff the atom is. A success leaves a suffix. |
| Repetitions.RepOperator | pomsky-lib/src/parse/parsers.rs:232-247 | A bare `?`, `+` or `*` is one repetition of its kind, with the default quantifier. |
| Repetitions.NoRepetitions | pomsky-lib/src/parse/parsers.rs:175 | `many0` stops at once, with nothing read, where no repetition starts. |
| Repetitions.ConsOne | pomsky-lib/src/parse/parsers.rs:175 | A repetition in front of the last one reads as both, in order. |
| Repetitions.LastRepetition | pomsky-lib/src/parse/parsers.rs:175 | A repetition followed by no further one is all that `many0` reads. |
| Repetitions.OperatorThenNothing | pomsky-lib/src/parse/parsers.rs:175 | A bare operator followed by no repetition reads as that single repetition. |
| Repetitions.TwoOperators | pomsky-lib/src/parse/parsers.rs:175 | Two bare operators read as two repetitions. |
| Repetitions.FoldStopsAtSecond | pomsky-lib/src/parse/parsers.rs:185-196 | The fold stops at a rejected second repetition, at its span. |
| Repetitions.SecondRejected | pomsky-lib/src/parse/parsers.rs:183-196 | After a repetition without a written quantifier, a `?`- or `+`-repetition fails at its span with the matching error. |
| Repetitions.RepeatedAtomFails | pomsky-lib/src/parse/parsers.rs:174-206 | Once the atom and its repetitions are read, a rejection by the closure is fatal. |
| Repetitions.RepeatedAtomParses | pomsky-lib/src/parse/parsers.rs:174-206 | Once the atom and its repetitions are read, an accepted result ends where the repetitions end. |
| Repetitions.BracedRepetition | pomsky-lib/src/parse/parsers.rs:226-260 | A braced repetition with no quantifier after it has the default quantifier, the braces' span and syntax other. |
| Repetitions.BareOperator | pomsky-lib/src/parse/parsers.rs:231-247 | A bare `?` or `+` with no quantifier is one repetition of its own syntax. |
| Repetitions.BareThenNothing | pomsky-lib/src/parse/parsers.rs:175 | A bare `?` or `+` followed by no repetition reads as that repetition alone. |
| Repetitions.ThenBare | pomsky-lib/src/parse/parsers.rs:175 | Any repetition followed by a bare `?` or `+` reads as those two. |
| Repetitions.BracedThenOne | pomsky-lib/src/parse/parsers.rs:175 | A braced repetition with no quantifier, then one more repetition, reads as the two. |
| Repetitions.BracedThenOperatorRejected | pomsky-lib/src/parse/parsers.rs:174-206 | `x{2}?`, `x{1,3}+`: after braces with no quantifier, a `?`- or `+`-repetition fails fatally at its span with the matching error. |
| Repetitions.OtherThenOperatorRejected | pomsky-lib/src/parse/parsers.rs:174-206 | After any repetition of syntax other (`*`, or braces with no quantifier), a `?` or `+` token fails fatally at that token. |
| Repetitions.QuantifiedThenOperator | pomsky-lib/src/parse/parsers.rs:175 | An operator with `greedy` or `lazy`, then a bare `?` or `+`, reads as an explicit repetition and a default one. |
| Repetitions.ExplicitThenAny | pomsky-lib/src/parse/parsers.rs:183-203 | After an explicit repetition any second one is accepted, and both nest in order around the atom. |
| Repetitions.ExplicitQuantifierAllowsSecond | pomsky-lib/src/parse/parsers.rs:174-206 | `x? lazy ?`, `x+ greedy +`: parse as two nested repetitions, the first with the written quantifier, the second with the default. |
| Repetitions.DoubledRepetitionRejected | pomsky-lib/src/parse/parsers.rs:174-206 | `x??`, `x++`, `x*+` and the like fail fatally at the second operator, with the `?` or `+` error. |
| Alternatives.OrResult | pomsky-lib/src/parse/parsers.rs:129-138 | One alternative stands for itself. A lone leading pipe is `LonePipe` at the pipe. Anything else is an alternation of all alternatives. |
| Alternatives.MoreAlternatives | pomsky-lib/src/parse/parsers.rs:128 | Never recoverable; leaves a suffix. |
| Alternatives.Alternatives | pomsky-lib/src/parse/parsers.rs:128 | Never recoverable; leaves a suffix. |
| Alternatives.ParseOr | pomsky-lib/src/parse/parsers.rs:126-141 | Never recoverable. |
| Alternatives.LonePipeRejected | pomsky-lib/src/parse/parsers.rs:133-134 | `|` followed by no alternative fails fatally with `LonePipe` at the pipe. |
| Alternatives.TrailingPipeLeft | pomsky-lib/src/parse/parsers.rs:128 | A trailing `|` is left unconsumed, and the single alternative stands for itself. |
| Alternatives.TwoAlternatives | pomsky-lib/src/parse/parsers.rs:126-141 | `a | b` is the alternation of both, in order, spanning from `a` to `b`. |
| Alternatives.SequenceResult | pomsky-lib/src/parse/parsers.rs:144-152 | One part stands for itself. Several form a group without capture, holding exactly those parts in order, with the joined span of all parts (the span an alternation of them would have). |
| Alternatives.ManyFixes | pomsky-lib/src/parse/parsers.rs:144 | `many0` never fails recoverably and leaves a suffix. |
| Alternatives.ParseSequence | pomsky-lib/src/parse/parsers.rs:143-154 | Recoverable iff the first part is. A fatal first part is passed on. A success consumes input. |
| Alternatives.SequenceOfOne | pomsky-lib/src/parse/parsers.rs:143-154 | One part, with no other after it, is returned unwrapped. |
| Alternatives.SequenceOfTwo | pomsky-lib/src/parse/parsers.rs:143-154 | Two parts form a group without capture, holding both in order and spanning from the first to the second. |
| Alternatives.SequenceFailsAtSecond | pomsky-lib/src/parse/parsers.rs:143-154 | A fatal error of the second part is the sequence's fatal error. |
| Warnings.ParseWarningKind.At | pomsky-syntax/src/warning.rs:23-27 | The warning has that kind and that span. |
| Warnings.DisplayDeprecation | pomsky-syntax/src/warning.rs:54-62 | The dot's text is the deprecation message. |
| Warnings.DisplayKind | pomsky-syntax/src/warning.rs:40-45 | A kind displays as its deprecation. |
| Warnings.DotMessageHasNoBreak | pomsky-syntax/src/warning.rs:57-59 | The message has no line break. |
| Warnings.DecimalRoundTrip | pomsky-syntax/src/warning.rs:33 | A byte offset written in decimal reads back to itself. |
| Warnings.ReadDecimalRange | pomsky-syntax/src/warning.rs:33 | `start..end` reads back to the pair. |
| Warnings.ReadWithLocation | pomsky-syntax/src/warning.rs:32-36 | For a message without line breaks, the text with its location reads back to the message and the span's byte range. The empty span has no range. |
| Warnings.WithLocation | pomsky-syntax/src/warning.rs:32-36 | The message is a prefix of the text. The text is the message alone iff the span has no range; otherwise the message is followed by the location marker. |
| Warnings.DisplayWarning | pomsky-syntax/src/warning.rs:29-38 | The deprecation's text is a prefix of the display. The display is that text alone iff the span has no range. |
| Warnings.ReadDisplayedWarning | pomsky-syntax/src/warning.rs:29-38 | A displayed warning determines its message and its span's range. |
| Graphemes.Compile | rulex-lib/src/grapheme.rs:22-29 | Fails iff the flavor is JavaScript, with `Unsupported(Grapheme, JavaScript)` at the span. Otherwise the grapheme regex. |
| Graphemes.CompileDependsOnFlavor | rulex-lib/src/grapheme.rs:22-29 | The outcome depends on the flavor alone, apart from the error's span. |
| Graphemes.Require | rulex-lib/src/grapheme.rs:32 | `Ok` iff the feature is allowed. Otherwise the error names the feature at the span. |
| Graphemes.Validate | rulex-lib/src/grapheme.rs:31-34 | `Ok` iff `GRAPHEME` is allowed. An error is at the grapheme's span. |

## Left out

- The tokenizer and nom's `Input` type are not part of this model. An
  input is a sequence of tokens (kind, text, span) plus the source length.
  The tokenizer is assumed to deliver quoted string tokens and `U+`
  code-point tokens (`Tokens.WellFormed`).
- The recursion counter of `recurse` is not modelled, and neither are its
  `RecursionLimit` errors from nesting. The warnings `RefCell` is not
  modelled either, so `parse_dot` adds no warning.
- `parse`, `parse_fixes` (its negation and lookaround branches),
  `parse_lookaround`, `parse_atom`, `parse_group`, `parse_boundary` with
  `parse_start_end_new`/`parse_start_end_old`, and `parse_reference` are
  not modelled. The grammar parsers that the modelled parsers call
  recursively are parameters instead: `parse_or`, `parse_sequence`,
  `parse_fixes` and `parse_atom`. They are constrained only to leave a
  suffix (`Nom.IsParser`) or to consume (`Nom.IsConsumingParser`).
- nom's `alt` is modelled as returning the last branch's error when every
  branch fails recoverably. `many1` passes its first error through
  unchanged, since `ParseError`'s `append` is not shown.
- `Alternatives.ManyFixes`: it requires a parser that always consumes on
  success, because nom's guard against a `many0` that consumes nothing is
  not modelled.
- `span.rs` is not part of this model. `Span::join` covers both spans and
  leaves a span unchanged when joined with `Span::default()`, the empty
  span. `Span::start` is the empty range at the span's start.
  `Span::range` is `None` only for the empty span.
- Helpers that are not shown are given these behaviours:
  - `CharGroup::try_from_range` gives a range item unless the range
    descends;
  - `CharGroup::add` appends items to items, and the dot cannot be added
    (`Unallowed`);
  - `RepetitionKind::try_from` gives `NotAscending` when the lower bound
    exceeds the upper;
  - `Alternation::new_expr` spans from the first alternative to the last
    and keeps the alternatives as given: a nested alternation is not
    flattened into its parent;
  - `CharGroup::from_chars` gives one char item per char of the string,
    in order, and `CharGroup::from_char` the single item of that char
    (`Ast.FromChars`, `Ast.FromChar`);
  - `NumberError::from(ParseIntError)` maps empty input to `Empty`, a bad
    digit to `InvalidDigit` and overflow to `TooLarge`;
  - the error of a token or keyword that does not match is
    `ExpectedToken`/`ExpectedKeyword` at the next token.
- `CharGroup::try_from_group_name` (class names such as `word` or
  `Greek`) is a function parameter (`CharClasses.GroupNames`), because
  the Unicode tables are not part of this model.
- `Graphemes.Require`: `RulexFeatures` is a set of flags. The error of
  `require` is modelled as `UnallowedFeature(flag, span)`, because
  `features.rs` is not part of this model. `CompileOptions` and
  `ParseOptions` keep only the flavor and the allowed features.
- `Graphemes.Compile`: the compiled regex keeps only its node kind
  (`GraphemeRegex`); `regex.rs` is not part of this model.
- The value-level AST keeps only what the parser hands to each node.
  Boundaries, lookarounds and references are all `Ast.Rule.Other`.
- `pomsky-bin/src/main.rs`, `pomsky-bin/src/result/serde_code.rs`,
  `pomsky-lib/src/exprs/mod.rs`, `pomsky-lib/src/parse/mod.rs` and
  `rulex-lib/src/rule.rs` are context and are not part of this model.
