/** The small parsers built on single tokens: string literals, identifiers,
    variables, the name after `let`, and the named special characters
    (`parse_string`, `parse_ident`, `parse_variable`, `parse_special_char`
    and the `let` name handling of `parse_modified` in
    `pomsky-lib/src/parse/parsers.rs`). */
module Atoms {
  import opened Wrappers
  import opened Text
  import opened Spans
  import opened Tokens
  import opened Errors
  import opened Nom
  import opened Quoted
  import opened Ast

  /** `parse_string`: a string token, decoded; a decoding error is fatal and
      located at the token. */
  function ParseString(input: Input): (r: PResult<Rule>)
    requires input.Valid()
    ensures r.Error? <==> !input.StartsWith(TokenKind.String)
    ensures r.Parsed? ==> r.rest == input.Advance() && r.value.Literal? && r.value.span == input.tokens[0].span
    ensures r.Failure? ==> r.err.span == input.FirstSpan()
  {
    var t := ExpectToken(input, TokenKind.String);
    if !t.Parsed? then Error(t.err)
    else match QuotedText(t.value.0)
      case Ok(s) => Parsed(t.rest, Literal(s, t.value.1))
      case Err(k) => Failure(k.At(input.FirstSpan()))
  }

  /** Every string is the content of a literal: the escaped text between
      double quotes parses back to it. */
  lemma ParseStringEscaped(input: Input, t: string)
    requires input.Valid() && input.StartsWith(TokenKind.String)
    requires input.tokens[0].text == ['"'] + Escape(t) + ['"']
    ensures ParseString(input) == Parsed(input.Advance(), Literal(t, input.tokens[0].span))
  {
    QuotedEscapeRoundTrip(t);
  }

  /** The words that are reserved and cannot name a variable. */
  const Keywords: set<string> :=
    {"let", "lazy", "greedy", "range", "base", "atomic", "enable", "disable", "if", "else", "recursion"}

  /** `parse_ident`: an identifier that is not a keyword. A keyword is a
      fatal error at the token. */
  function ParseIdent(input: Input): (r: PResult<(string, Span)>)
    ensures r.Error? <==> !input.StartsWith(Identifier)
    ensures r.Error? ==> r.err == ExpectedToken(Identifier).At(input.FirstSpan())
    ensures r.Parsed? <==> input.StartsWith(Identifier) && input.tokens[0].text !in Keywords
    ensures r.Parsed? ==> r.rest == input.Advance() && r.value == (input.tokens[0].text, input.tokens[0].span)
    ensures r.Failure? ==> r.err == UnexpectedKeyword(input.tokens[0].text).At(input.tokens[0].span)
  {
    var t := ExpectToken(input, Identifier);
    if !t.Parsed? then Error(t.err)
    else if t.value.0 in Keywords then Failure(UnexpectedKeyword(t.value.0).At(input.FirstSpan()))
    else t
  }

  /** `parse_variable`: an identifier as a variable reference. */
  function ParseVariable(input: Input): (r: PResult<Rule>)
    ensures r.Parsed? <==> ParseIdent(input).Parsed?
    ensures r.Parsed? ==> r.value == Variable(input.tokens[0].text, input.tokens[0].span)
    ensures !r.Parsed? ==> r.err == ParseIdent(input).err && (r.Error? <==> ParseIdent(input).Error?)
  {
    match ParseIdent(input)
    case Parsed(rest, v) => Parsed(rest, Variable(v.0, v.1))
    case Error(e) => Error(e)
    case Failure(e) => Failure(e)
  }

  /** The error mapping after `let`: a keyword there is reported as a keyword
      after `let`; other errors stay as they are. */
  function AfterLet(e: ParseError): ParseError {
    match e.kind
    case UnexpectedKeyword(kw) => KeywordAfterLet(kw).At(e.span)
    case _ => e
  }

  /** The name of a `let` binding: committed, with keyword errors renamed. */
  function ParseLetName(input: Input): (r: PResult<(string, Span)>)
    ensures !r.Error?
    ensures r.Parsed? <==> input.StartsWith(Identifier) && input.tokens[0].text !in Keywords
    ensures r.Parsed? ==> r == ParseIdent(input)
    ensures r.Failure? && input.StartsWith(Identifier) ==>
      r.err == KeywordAfterLet(input.tokens[0].text).At(input.tokens[0].span)
    ensures r.Failure? && !input.StartsWith(Identifier) ==>
      r.err == ExpectedToken(Identifier).At(input.FirstSpan())
  {
    var p := ParseIdent(input);
    if p.Parsed? then p else Cut(if p.Error? then Error(AfterLet(p.err)) else Failure(AfterLet(p.err)))
  }

  /** `parse_special_char`: the names of the special characters. */
  function SpecialChar(name: string): (c: Option<char>)
    ensures c.Some? ==> c.value < ' '
  {
    match name
    case "n" => Some('\n')
    case "r" => Some('\r')
    case "t" => Some('\t')
    case "a" => Some(7 as char)
    case "e" => Some(0x1B as char)
    case "f" => Some(0x0C as char)
    case _ => None
  }

  /** The name of a special character, the inverse of `SpecialChar`. */
  function SpecialCharName(c: char): Option<string> {
    if c == '\n' then Some("n")
    else if c == '\r' then Some("r")
    else if c == '\t' then Some("t")
    else if c == 7 as char then Some("a")
    else if c == 0x1B as char then Some("e")
    else if c == 0x0C as char then Some("f")
    else None
  }

  /** Each special character has exactly one name, so the names and the
      characters correspond one to one. */
  lemma SpecialCharNames(name: string, c: char)
    ensures SpecialChar(name) == Some(c) <==> SpecialCharName(c) == Some(name)
  {
  }

  /** An identifier as a special character; any other identifier is a
      recoverable `Incomplete` error at the token. */
  function ParseSpecialChar(input: Input): (r: PResult<char>)
    ensures !r.Failure?
    ensures r.Parsed? <==> input.StartsWith(Identifier) && SpecialChar(input.tokens[0].text).Some?
    ensures r.Parsed? ==> r.rest == input.Advance() && SpecialCharName(r.value) == Some(input.tokens[0].text)
    ensures r.Error? && input.StartsWith(Identifier) ==> r.err == Incomplete.At(input.tokens[0].span)
  {
    var t := ExpectToken(input, Identifier);
    if !t.Parsed? then Error(t.err)
    else match SpecialChar(t.value.0)
      case Some(c) =>
        SpecialCharNames(t.value.0, c);
        Parsed(t.rest, c)
      case None => Error(Incomplete.At(input.FirstSpan()))
  }

  /** No keyword is ever a variable or a `let` name. */
  lemma KeywordsAreReserved(input: Input)
    requires input.StartsWith(Identifier) && input.tokens[0].text in Keywords
    ensures ParseVariable(input) == Failure(UnexpectedKeyword(input.tokens[0].text).At(input.tokens[0].span))
    ensures ParseLetName(input) == Failure(KeywordAfterLet(input.tokens[0].text).At(input.tokens[0].span))
  {
  }
}
