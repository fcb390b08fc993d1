/** The parser's error kinds and the located error `ParseError`.
    `error.rs` is not part of this model; the kinds are those the modelled
    code constructs. */
module Errors {
  import opened Spans
  import opened Tokens

  datatype NumberError = Empty | InvalidDigit | TooLarge | TooSmall | Zero

  datatype CharStringError = Empty | TooManyCodePoints

  datatype CharClassError = Empty | DescendingRange(first: char, last: char) | CaretInGroup | Invalid | Unallowed

  datatype CodePointError = Invalid

  datatype RepetitionError = NotAscending | QuestionMarkAfterRepetition | PlusAfterRepetition

  datatype ParseErrorKind =
    | UnexpectedKeyword(keyword: string)
    | KeywordAfterLet(keyword: string)
    | LetBindingExists
    | LonePipe
    | Expected(what: string)
    | ExpectedToken(token: TokenKind)
    | ExpectedKeyword(word: string)
    | ExpectedCodePointOrChar
    | RecursionLimit
    | Repetition(repetition: RepetitionError)
    | Number(number: NumberError)
    | RangeIsNotIncreasing
    | CharString(charString: CharStringError)
    | CharClass(charClass: CharClassError)
    | CodePoint(codePoint: CodePointError)
    | InvalidEscapeInStringAt(offset: nat)
    | Incomplete
    | Dot
    | LeftoverTokens
  {
    /** `ParseErrorKind::at`: attach a span. */
    function At(span: Span): ParseError {
      ParseError(this, span)
    }
  }

  datatype ParseError = ParseError(kind: ParseErrorKind, span: Span)
}
