/** Code points: `U+10FFFF` tokens and the `U10FFFF` identifier form
    (`parse_code_point` in `pomsky-lib/src/parse/parsers.rs`). */
module CodePoints {
  import opened Wrappers
  import opened Text
  import opened Spans
  import opened Tokens
  import opened Errors
  import opened Nom
  import opened RustInt

  /** The integers that are Unicode scalar values. */
  predicate IsScalar(n: nat) {
    n <= 0x10FFFF && !(0xD800 <= n <= 0xDFFF)
  }

  /** `char::try_from(u32)`. */
  function CharFrom(n: nat): (r: Option<char>)
    ensures r.Some? <==> IsScalar(n)
    ensures r.Some? ==> r.value as int == n
  {
    if IsScalar(n) then Some(n as char) else None
  }

  /** The value of a code-point token `U+hex`: at most six hex digits after
      the two-byte prefix, a `u32`, and a scalar value. Every failure is the
      same error. (The prefix is ASCII, so cutting two bytes off the token is
      cutting two characters.) */
  function CodePointValue(text: string): (r: Result<char, ParseErrorKind>)
    requires |text| >= 2
    ensures r.Err? ==> r.error == ParseErrorKind.CodePoint(CodePointError.Invalid)
    ensures r.Ok? ==> |Utf8(text[2..])| <= 6
    ensures r.Ok? ==> FromStrRadix(Utf8(text[2..]), 16, U32Max) == Ok(r.value as int)
    ensures |Utf8(text[2..])| <= 6 ==>
      match FromStrRadix(Utf8(text[2..]), 16, U32Max)
      case Err(_) => r.Err?
      case Ok(n) => (r.Ok? <==> IsScalar(n)) && (r.Ok? ==> r.value as int == n)
  {
    var hex := Utf8(text[2..]);
    if |hex| > 6 then Err(ParseErrorKind.CodePoint(CodePointError.Invalid))
    else match FromStrRadix(hex, 16, U32Max)
      case Err(_) => Err(ParseErrorKind.CodePoint(CodePointError.Invalid))
      case Ok(n) =>
        match CharFrom(n)
        case Some(c) => Ok(c)
        case None => Err(ParseErrorKind.CodePoint(CodePointError.Invalid))
  }

  /** The value of an identifier read as a code point: `U` and hex digits,
      of any length. An identifier that is no hex number after the `U` is
      simply not a code point; one whose number is no scalar value is an
      invalid code point. */
  function IdentCodePointValue(text: string): (r: Result<char, ParseErrorKind>)
    ensures r.Err? ==> r.error in {ParseErrorKind.CodePoint(CodePointError.Invalid), ExpectedToken(TokenKind.CodePoint)}
    ensures (|text| == 0 || text[0] != 'U') ==> r == Err(ExpectedToken(TokenKind.CodePoint))
    ensures |text| >= 1 && text[0] == 'U' ==>
      match FromStrRadix(Utf8(text[1..]), 16, U32Max)
      case Err(_) => r == Err(ExpectedToken(TokenKind.CodePoint))
      case Ok(n) => (r.Ok? <==> IsScalar(n)) && (r.Ok? ==> r.value as int == n)
                    && (r.Err? ==> r.error == ParseErrorKind.CodePoint(CodePointError.Invalid))
  {
    if |text| >= 1 && text[0] == 'U' then
      match FromStrRadix(Utf8(text[1..]), 16, U32Max)
      case Ok(n) =>
        (match CharFrom(n)
         case Some(c) => Ok(c)
         case None => Err(ParseErrorKind.CodePoint(CodePointError.Invalid)))
      case Err(_) => Err(ExpectedToken(TokenKind.CodePoint))
    else Err(ExpectedToken(TokenKind.CodePoint))
  }

  /** `parse_code_point`: a code-point token (whose errors are fatal), or
      else an identifier of the form `U<hex>` (whose errors are recoverable,
      so that the identifier can still be read as something else). */
  function ParseCodePoint(input: Input): (r: PResult<(char, Span)>)
    requires input.Valid()
    ensures Consumed(input, r)
    ensures r.Failure? ==> input.StartsWith(TokenKind.CodePoint) && r.err == ParseErrorKind.CodePoint(CodePointError.Invalid).At(input.FirstSpan())
    ensures r.Parsed? ==> r.rest == input.Advance() && r.value.1 == input.tokens[0].span
    ensures !input.StartsWith(TokenKind.CodePoint) && !input.StartsWith(Identifier) ==> r.Error?
  {
    var a := ExpectToken(input, TokenKind.CodePoint);
    if a.Parsed? then
      match CodePointValue(a.value.0)
      case Ok(c) => Parsed(a.rest, (c, a.value.1))
      case Err(k) => Failure(k.At(input.FirstSpan()))
    else
      var b := ExpectToken(input, Identifier);
      if !b.Parsed? then Error(b.err)
      else match IdentCodePointValue(b.value.0)
        case Ok(c) => Parsed(b.rest, (c, b.value.1))
        case Err(k) => Error(k.At(input.FirstSpan()))
  }

  lemma Pow16Six()
    ensures Pow(16, 6) == 0x100_0000
  {
    assert Pow(16, 2) == 0x100;
    assert Pow(16, 4) == 0x1_0000 by { assert Pow(16, 4) == 16 * (16 * Pow(16, 2)); }
    assert Pow(16, 6) == 16 * (16 * Pow(16, 4));
  }

  /** The hex digits of a scalar value, as a code-point token, parse back to
      that character: `U+` and at most six digits cover all of Unicode. */
  lemma CodePointRoundTrip(c: char)
    ensures CodePointValue("U+" + RadixString(c as int, 16)) == Ok(c)
  {
    var n := c as int;
    var hex := RadixString(n, 16);
    assert ("U+" + hex)[2..] == hex;
    Utf8Ascii(hex);
    Pow16Six();
    RadixStringLength(n, 16, 6);
    ParseRadixString(n, 16, U32Max);
  }

  /** The same for the identifier form `U<hex>`. */
  lemma IdentCodePointRoundTrip(c: char)
    ensures IdentCodePointValue("U" + RadixString(c as int, 16)) == Ok(c)
  {
    var hex := RadixString(c as int, 16);
    assert ("U" + hex)[1..] == hex;
    ParseRadixString(c as int, 16, U32Max);
  }

  /** A number beyond the last scalar value but within six hex digits is
      rejected in both forms. */
  lemma AboveUnicodeRejected(n: nat)
    requires 0x10FFFF < n <= 0xFF_FFFF
    ensures CodePointValue("U+" + RadixString(n, 16)) == Err(ParseErrorKind.CodePoint(CodePointError.Invalid))
    ensures IdentCodePointValue("U" + RadixString(n, 16)) == Err(ParseErrorKind.CodePoint(CodePointError.Invalid))
  {
    var hex := RadixString(n, 16);
    assert ("U+" + hex)[2..] == hex;
    assert ("U" + hex)[1..] == hex;
    Utf8Ascii(hex);
    Pow16Six();
    RadixStringLength(n, 16, 6);
    ParseRadixString(n, 16, U32Max);
  }

  /** A surrogate is rejected in both forms, but only the token form fails
      fatally: the identifier form leaves room for other readings. */
  lemma SurrogatesRejected(input: Input, n: nat)
    requires input.Valid() && |input.tokens| > 0
    requires 0xD800 <= n <= 0xDFFF
    requires input.tokens[0].kind in {TokenKind.CodePoint, Identifier}
    requires input.tokens[0].text == (if input.tokens[0].kind == Identifier then "U" else "U+") + RadixString(n, 16)
    ensures input.tokens[0].kind == TokenKind.CodePoint ==>
      ParseCodePoint(input) == Failure(ParseErrorKind.CodePoint(CodePointError.Invalid).At(input.tokens[0].span))
    ensures input.tokens[0].kind == Identifier ==>
      ParseCodePoint(input) == Error(ParseErrorKind.CodePoint(CodePointError.Invalid).At(input.tokens[0].span))
  {
    var hex := RadixString(n, 16);
    ParseRadixString(n, 16, U32Max);
    assert ("U" + hex)[1..] == hex;
    assert ("U+" + hex)[2..] == hex;
  }
}
