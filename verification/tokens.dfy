/** The tokens the parser consumes. The tokenizer and the `Input` type are not
    part of this model: a token is its kind, its text and its span, and an
    input is the remaining tokens plus the length of the source, which gives
    the span reported at the end of the input. */
module Tokens {
  import opened Text
  import opened Spans

  datatype TokenKind =
    | Caret | Dollar | BStart | BEnd | BWord
    | Star | Plus | QuestionMark | Pipe | Colon
    | OpenParen | CloseParen | OpenBrace | CloseBrace | Comma | Not
    | OpenBracket | Dash | CloseBracket | Dot
    | LookAhead | LookBehind | Backref | Semicolon | Equals
    | String | CodePoint | Number | Identifier

  datatype Token = Token(kind: TokenKind, text: string, span: Span)

  /** What the parser relies on of the tokenizer: string tokens are quoted
      (their first and last characters are single bytes, so slicing off one
      byte at each end is valid), and code-point tokens start with two
      single-byte characters (`U+`). */
  predicate WellFormed(t: Token) {
    && (t.kind == String ==> |t.text| >= 2 && IsAscii(t.text[0]) && IsAscii(t.text[|t.text| - 1]))
    && (t.kind == CodePoint ==> |t.text| >= 2 && IsAscii(t.text[0]) && IsAscii(t.text[1]))
  }

  datatype Input = Input(tokens: seq<Token>, sourceLen: nat) {
    predicate Valid() {
      forall i :: 0 <= i < |tokens| ==> WellFormed(tokens[i])
    }

    /** `Input::span`: the span of the next token, or the empty range at the
        end of the source. */
    function FirstSpan(): Span {
      if |tokens| > 0 then tokens[0].span else Span(sourceLen, sourceLen)
    }

    predicate StartsWith(kind: TokenKind) {
      |tokens| > 0 && tokens[0].kind == kind
    }

    predicate StartsWithWord(word: string) {
      |tokens| > 0 && tokens[0].kind == Identifier && tokens[0].text == word
    }

    function Advance(): (r: Input)
      requires |tokens| > 0
      ensures Valid() ==> r.Valid()
    {
      Input(tokens[1..], sourceLen)
    }

    /** `rest` is what remains of this input after consuming some tokens. */
    predicate SuffixOf(rest: Input) {
      && rest.sourceLen == sourceLen
      && |rest.tokens| <= |tokens|
      && rest.tokens == tokens[|tokens| - |rest.tokens|..]
    }
  }

  lemma SuffixValid(input: Input, rest: Input)
    requires input.Valid() && input.SuffixOf(rest)
    ensures rest.Valid()
  {
    forall i | 0 <= i < |rest.tokens|
      ensures WellFormed(rest.tokens[i])
    {
      assert rest.tokens[i] == input.tokens[|input.tokens| - |rest.tokens| + i];
    }
  }

  lemma SuffixTrans(a: Input, b: Input, c: Input)
    requires a.SuffixOf(b) && b.SuffixOf(c)
    ensures a.SuffixOf(c)
  {
    assert c.tokens == a.tokens[|a.tokens| - |c.tokens|..];
  }
}
