/** The outcome of a nom parser and the few combinators whose treatment of
    it the model needs. A parser either succeeds with the remaining input
    and a value, fails recoverably (`Error`: `alt` tries its next branch,
    `opt` yields `None`, `many0` stops), or fails fatally (`Failure`: every
    combinator passes it on). `cut` turns `Error` into `Failure`. */
module Nom {
  import opened Spans
  import opened Tokens
  import opened Errors

  datatype PResult<+T> = Parsed(rest: Input, value: T) | Error(err: ParseError) | Failure(err: ParseError)

  /** Whether a successful parse consumed at least one token of `input`. */
  predicate Consumed<T>(input: Input, r: PResult<T>) {
    r.Parsed? ==> input.SuffixOf(r.rest) && |r.rest.tokens| < |input.tokens|
  }

  /** nom's `cut`. */
  function Cut<T>(r: PResult<T>): (c: PResult<T>)
    ensures !c.Error?
    ensures c.Parsed? <==> r.Parsed?
    ensures c.Parsed? ==> c == r
    ensures !c.Parsed? ==> c.err == r.err
  {
    match r
    case Error(e) => Failure(e)
    case _ => r
  }

  /** A token used as a parser: the next token if it has the given kind. */
  function ExpectToken(input: Input, kind: TokenKind): (r: PResult<(string, Span)>)
    ensures !r.Failure?
    ensures r.Parsed? <==> input.StartsWith(kind)
    ensures r.Parsed? ==> r.rest == input.Advance() && r.value == (input.tokens[0].text, input.tokens[0].span)
    ensures Consumed(input, r)
  {
    if input.StartsWith(kind) then Parsed(input.Advance(), (input.tokens[0].text, input.tokens[0].span))
    else Error(ExpectedToken(kind).At(input.FirstSpan()))
  }

  /** A keyword used as a parser (`"let"`, `"lazy"`, ...): the next token if
      it is an identifier with exactly that text. */
  function ExpectWord(input: Input, word: string): (r: PResult<Span>)
    ensures !r.Failure?
    ensures r.Parsed? <==> input.StartsWithWord(word)
    ensures r.Parsed? ==> r.rest == input.Advance() && r.value == input.tokens[0].span
    ensures Consumed(input, r)
  {
    if input.StartsWithWord(word) then Parsed(input.Advance(), input.tokens[0].span)
    else Error(ExpectedKeyword(word).At(input.FirstSpan()))
  }

  /** An unsuccessful outcome, passed on as it is with another value type
      (what `?` does in a parser). */
  function Fail<T, U>(r: PResult<T>): (f: PResult<U>)
    requires !r.Parsed?
    ensures f.Error? <==> r.Error?
    ensures !f.Parsed? && f.err == r.err
  {
    if r.Error? then Error(r.err) else Failure(r.err)
  }

  /** What every nom parser guarantees: a success leaves a suffix of its
      input. */
  ghost predicate IsParser<T>(p: Input -> PResult<T>) {
    forall i :: p(i).Parsed? ==> i.SuffixOf(p(i).rest)
  }

  /** A parser that consumes at least one token whenever it succeeds. */
  ghost predicate IsConsumingParser<T>(p: Input -> PResult<T>) {
    forall i :: Consumed(i, p(i))
  }
}
