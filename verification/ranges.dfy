/** Range literals, `range 'start'-'end' base n` (`parse_range` and its
    helpers `parse_base` and `parse_number` in
    `pomsky-lib/src/parse/parsers.rs`). */
module Ranges {
  import opened Wrappers
  import opened Text
  import opened Spans
  import opened Tokens
  import opened Errors
  import opened Nom
  import opened RustInt
  import opened Numbers
  import opened Quoted
  import opened Ast

  /** `NumberError::from(ParseIntError)`: the integer parse errors an
      unsigned type can produce, as number errors. */
  function NumberErrorOf(e: IntErrorKind): NumberError {
    match e
    case Empty => NumberError.Empty
    case InvalidDigit => NumberError.InvalidDigit
    case PosOverflow => NumberError.TooLarge
  }

  /** The radix written after `base`: a decimal `u8`, from 2 to 36. */
  function BaseValue(text: string): (r: Result<nat, ParseErrorKind>)
    ensures r.Ok? ==> 2 <= r.value <= 36
  {
    match FromStrRadix(Utf8(text), 10, U8Max)
    case Err(e) => Err(ParseErrorKind.Number(NumberErrorOf(e)))
    case Ok(n) =>
      if n > 36 then Err(ParseErrorKind.Number(NumberError.TooLarge))
      else if n < 2 then Err(ParseErrorKind.Number(NumberError.TooSmall))
      else Ok(n)
  }

  /** Any base written in decimal is accepted exactly when it lies in
      2..=36; above that (even beyond the `u8` range) it is too large, below
      it too small. */
  lemma BaseValueOfDecimal(n: nat)
    ensures BaseValue(RadixString(n, 10)) ==
      if n > 36 then Err(ParseErrorKind.Number(NumberError.TooLarge))
      else if n < 2 then Err(ParseErrorKind.Number(NumberError.TooSmall))
      else Ok(n)
  {
    ParseRadixString(n, 10, U8Max);
  }

  /** `parse_base`: the keyword `base`, then (committed) a number token. */
  function ParseBase(input: Input): (r: PResult<(nat, Span)>)
    ensures r.Error? <==> !input.StartsWithWord("base")
    ensures r.Parsed? ==> 2 <= r.value.0 <= 36
    ensures Consumed(input, r)
  {
    var kw := ExpectWord(input, "base");
    if !kw.Parsed? then Error(kw.err)
    else
      var num := Cut(ExpectToken(kw.rest, TokenKind.Number));
      if !num.Parsed? then Failure(num.err)
      else match BaseValue(num.value.0)
        case Ok(n) => Parsed(num.rest, (n, num.value.1))
        case Err(k) => Failure(k.At(kw.rest.FirstSpan()))
  }

  /** A string token of a range bound, as the tokenizer delivers it. */
  predicate QuotedToken(s: string) {
    |s| >= 2 && IsAscii(s[0]) && IsAscii(s[|s| - 1])
  }

  /** The digits of a range bound: the token's bytes without the quotes. */
  function BoundDigits(s: string, radix: nat): Result<seq<nat>, NumberError>
    requires QuotedToken(s)
  {
    NumberDigits(Utf8(StripFirstLast(s)), radix)
  }

  /** Rust's `start.len() > end.len() || (start.len() == end.len() && start > end)`. */
  predicate NotIncreasing(start: seq<nat>, end: seq<nat>) {
    |start| > |end| || (|start| == |end| && LexLess(end, start))
  }

  /** The closure of `parse_range`: choose the radix, parse both bounds in
      it, and reject a range that is not increasing. */
  function RangeFromBounds(start: string, span1: Span, end: string, span2: Span, base: Option<(nat, Span)>)
    : (r: Result<RangeExpr, ParseError>)
    requires QuotedToken(start) && QuotedToken(end)
    ensures var radix := if base.Some? then base.value.0 else 10;
      r.Ok? <==> BoundDigits(start, radix).Ok? && BoundDigits(end, radix).Ok?
                 && !NotIncreasing(BoundDigits(start, radix).value, BoundDigits(end, radix).value)
    ensures r.Ok? ==> var radix := if base.Some? then base.value.0 else 10;
      && r.value.radix == radix
      && r.value.start == BoundDigits(start, radix).value && r.value.end == BoundDigits(end, radix).value
      && r.value.span == (if base.Some? then span1.Join(base.value.1) else span1.Join(span2))
  {
    var radix := if base.Some? then base.value.0 else 10;
    var span := if base.Some? then span1.Join(base.value.1) else span1.Join(span2);
    match BoundDigits(start, radix)
    case Err(k) => Err(ParseErrorKind.Number(k).At(span1))
    case Ok(s) =>
      match BoundDigits(end, radix)
      case Err(k) => Err(ParseErrorKind.Number(k).At(span2))
      case Ok(e) =>
        if NotIncreasing(s, e) then Err(RangeIsNotIncreasing.At(span1.Join(span2)))
        else Ok(RangeExpr(s, e, radix, span))
  }

  /** What the range check accepts: the radix is the base or 10, both bounds
      are their digits in that radix, and the start has no more digits than
      the end and, with as many, is not lexicographically greater. Each
      failure names its cause at its span. */
  lemma RangeFromBoundsMeaning(start: string, span1: Span, end: string, span2: Span, base: Option<(nat, Span)>)
    requires QuotedToken(start) && QuotedToken(end)
    ensures var radix := if base.Some? then base.value.0 else 10;
      var r := RangeFromBounds(start, span1, end, span2, base);
      && (BoundDigits(start, radix).Err? ==> r == Err(ParseErrorKind.Number(NumberError.InvalidDigit).At(span1)))
      && (BoundDigits(start, radix).Ok? && BoundDigits(end, radix).Err? ==>
            r == Err(ParseErrorKind.Number(NumberError.InvalidDigit).At(span2)))
      && (BoundDigits(start, radix).Ok? && BoundDigits(end, radix).Ok? ==>
            var s := BoundDigits(start, radix).value;
            var e := BoundDigits(end, radix).value;
            && DigitsBelow(s, radix) && DigitsBelow(e, radix)
            && (r.Ok? <==> !NotIncreasing(s, e))
            && (r.Ok? ==> r.value.start == s && r.value.end == e && r.value.radix == radix)
            && (r.Err? ==> r.error == RangeIsNotIncreasing.At(span1.Join(span2))))
  {
    var radix := if base.Some? then base.value.0 else 10;
    NumberDigitsMeaning(Utf8(StripFirstLast(start)), radix);
    NumberDigitsMeaning(Utf8(StripFirstLast(end)), radix);
  }

  /** For bounds written without superfluous leading zeros, the range check
      accepts exactly the ranges whose start is at most their end. */
  lemma RangeCheckIsNumericOrder(s: seq<nat>, e: seq<nat>, radix: nat)
    requires 2 <= radix && DigitsBelow(s, radix) && DigitsBelow(e, radix)
    requires Canonical(s) && Canonical(e)
    ensures !NotIncreasing(s, e) <==> DigitsValue(s, radix) <= DigitsValue(e, radix)
  {
    if |s| > |e| {
      LongerIsLarger(s, e, radix);
    } else if |s| < |e| {
      LongerIsLarger(e, s, radix);
    } else {
      LexLessIsValueLess(e, s, radix);
    }
  }

  /** `parse_range`: the keyword `range`, then (committed) two string tokens
      around a dash, an optional base, and the range check. The span of the
      result also covers the keyword. */
  function ParseRange(input: Input): (r: PResult<Rule>)
    requires input.Valid()
    ensures r.Error? <==> !input.StartsWithWord("range")
    ensures r.Parsed? ==> r.value.RangeRule?
  {
    var kw := ExpectWord(input, "range");
    if !kw.Parsed? then Error(kw.err)
    else RangeAfterKeyword(kw.rest, kw.value)
  }

  /** Everything after the keyword `range`, whose span is `kwSpan`: past the
      keyword every error is fatal. */
  function RangeAfterKeyword(input: Input, kwSpan: Span): (r: PResult<Rule>)
    requires input.Valid()
    ensures !r.Error?
    ensures r.Parsed? ==> r.value.RangeRule?
  {
    var a := ExpectToken(input, TokenKind.String);
    if !a.Parsed? then Failure(a.err)
    else
      assert WellFormed(input.tokens[0]);
      var dash := ExpectToken(a.rest, Dash);
      if !dash.Parsed? then Failure(dash.err)
      else
        var b := ExpectToken(dash.rest, TokenKind.String);
        if !b.Parsed? then Failure(b.err)
        else
          assert WellFormed(dash.rest.tokens[0]) by {
            assert dash.rest.tokens[0] == input.tokens[2];
          }
          RangeWithBounds(b.rest, a.value, b.value, kwSpan)
  }

  /** The optional `base` clause after the two bounds, then the checks of
      `RangeFromBounds`. */
  function RangeWithBounds(input: Input, start: (string, Span), end: (string, Span), kwSpan: Span): (r: PResult<Rule>)
    requires QuotedToken(start.0) && QuotedToken(end.0)
    ensures !r.Error?
    ensures r.Parsed? ==> r.value.RangeRule?
  {
    var pb := ParseBase(input);
    if pb.Failure? then Failure(pb.err)
    else
      var rest := if pb.Parsed? then pb.rest else input;
      var base := if pb.Parsed? then Some(pb.value) else None;
      match RangeFromBounds(start.0, start.1, end.0, end.1, base)
      case Err(e) => Failure(e)
      case Ok(range) => Parsed(rest, RangeRule(range.(span := range.span.Join(kwSpan))))
  }

  /** `base` followed by a decimal number outside 2..=36 fails fatally at
      the number. */
  lemma ParseBaseRejects(input: Input, n: nat)
    requires |input.tokens| >= 2 && input.StartsWithWord("base")
    requires input.tokens[1].kind == TokenKind.Number && input.tokens[1].text == RadixString(n, 10)
    requires n < 2 || n > 36
    ensures ParseBase(input) == Failure(ParseErrorKind.Number(
      if n > 36 then NumberError.TooLarge else NumberError.TooSmall).At(input.tokens[1].span))
  {
    BaseValueOfDecimal(n);
    assert input.Advance().tokens[0] == input.tokens[1];
  }

  /** A base outside 2..=36 makes the whole range literal fail fatally, at
      the number's span, with the error `BaseValue` gives. */
  lemma ParseRangeRejectsBase(input: Input, n: nat)
    requires input.Valid() && |input.tokens| >= 6
    requires input.StartsWithWord("range")
    requires input.tokens[1].kind == TokenKind.String && input.tokens[2].kind == Dash && input.tokens[3].kind == TokenKind.String
    requires input.tokens[4].kind == Identifier && input.tokens[4].text == "base"
    requires input.tokens[5].kind == TokenKind.Number && input.tokens[5].text == RadixString(n, 10)
    requires n < 2 || n > 36
    ensures ParseRange(input) == Failure(ParseErrorKind.Number(
      if n > 36 then NumberError.TooLarge else NumberError.TooSmall).At(input.tokens[5].span))
  {
    var b := input.Advance().Advance().Advance().Advance();
    assert b.tokens == input.tokens[4..];
    ParseBaseRejects(b, n);
  }
}
