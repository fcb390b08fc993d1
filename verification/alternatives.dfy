/** Alternations `a | b` and sequences `a b` (`parse_or` and
    `parse_sequence` in `pomsky-lib/src/parse/parsers.rs`). The parsers of
    the parts, `parse_sequence` and `parse_fixes`, are parameters: the
    recursive grammar is not part of this model. */
module Alternatives {
  import opened Wrappers
  import opened Spans
  import opened Tokens
  import opened Errors
  import opened Nom
  import opened Ast
  import opened Statements

  /** The closure of `parse_or`: a single alternative stands for itself; a
      leading `|` with nothing after it is a lone pipe; anything else
      (including no alternatives at all) is an alternation. */
  function OrResult(leadingPipe: Option<Span>, rules: seq<Rule>): (r: Result<Rule, ParseError>)
    ensures r.Err? <==> leadingPipe.Some? && |rules| == 0
    ensures r.Err? ==> r.error == LonePipe.At(leadingPipe.value)
    ensures r.Ok? && |rules| == 1 ==> r.value == rules[0]
    ensures r.Ok? && |rules| != 1 ==>
      r.value.Alternation? && r.value.alternatives == rules && r.value.span == JoinSpans(rules)
  {
    if |rules| == 1 then Ok(rules[0])
    else if leadingPipe.Some? && |rules| == 0 then Err(LonePipe.At(leadingPipe.value))
    else Ok(NewAlternation(rules))
  }

  /** The part of nom's `separated_list0` after the first element: a
      separator and an element, repeatedly. When the element after a
      separator fails recoverably, the list ends before that separator. */
  function MoreAlternatives(input: Input, parseSequence: Input -> PResult<Rule>): (r: PResult<seq<Rule>>)
    requires IsParser(parseSequence)
    ensures !r.Error?
    ensures r.Parsed? ==> input.SuffixOf(r.rest)
    decreases |input.tokens|
  {
    var sep := ExpectToken(input, Pipe);
    if !sep.Parsed? then Parsed(input, [])
    else
      var e := parseSequence(sep.rest);
      if e.Error? then Parsed(input, [])
      else if e.Failure? then Failure(e.err)
      else
        SuffixTrans(input, sep.rest, e.rest);
        var more := MoreAlternatives(e.rest, parseSequence);
        if more.Parsed? then
          SuffixTrans(input, e.rest, more.rest);
          Parsed(more.rest, [e.value] + more.value)
        else more
  }

  /** `separated_list0(Token::Pipe, parse_sequence)`. */
  function Alternatives(input: Input, parseSequence: Input -> PResult<Rule>): (r: PResult<seq<Rule>>)
    requires IsParser(parseSequence)
    ensures !r.Error?
    ensures r.Parsed? ==> input.SuffixOf(r.rest)
  {
    var first := parseSequence(input);
    if first.Error? then Parsed(input, [])
    else if first.Failure? then Failure(first.err)
    else
      var more := MoreAlternatives(first.rest, parseSequence);
      if more.Parsed? then
        SuffixTrans(input, first.rest, more.rest);
        Parsed(more.rest, [first.value] + more.value)
      else more
  }

  /** `parse_or`: an optional leading `|`, the alternatives, and the
      closure, whose error is fatal. */
  function ParseOr(input: Input, parseSequence: Input -> PResult<Rule>): (r: PResult<Rule>)
    requires IsParser(parseSequence)
    ensures !r.Error?
  {
    var pipe := ExpectToken(input, Pipe);
    var afterPipe := if pipe.Parsed? then pipe.rest else input;
    var alts := Alternatives(afterPipe, parseSequence);
    if !alts.Parsed? then Failure(alts.err)
    else match OrResult(if pipe.Parsed? then Some(pipe.value.1) else None, alts.value)
      case Ok(rule) => Parsed(alts.rest, rule)
      case Err(e) => Failure(e)
  }

  /** A `|` with no alternative after it is a lone pipe, reported at the
      pipe. */
  lemma LonePipeRejected(input: Input, parseSequence: Input -> PResult<Rule>)
    requires IsParser(parseSequence)
    requires input.StartsWith(Pipe) && parseSequence(input.Advance()).Error?
    ensures ParseOr(input, parseSequence) == Failure(LonePipe.At(input.tokens[0].span))
  {
  }

  /** A trailing `|` is not consumed: `a |` followed by no alternative is
      just `a`, with the pipe left for the caller. */
  lemma TrailingPipeLeft(input: Input, parseSequence: Input -> PResult<Rule>)
    requires IsParser(parseSequence)
    requires !input.StartsWith(Pipe) && parseSequence(input).Parsed?
    requires var rest := parseSequence(input).rest;
      rest.StartsWith(Pipe) && parseSequence(rest.Advance()).Error?
    ensures ParseOr(input, parseSequence) == Parsed(parseSequence(input).rest, parseSequence(input).value)
  {
    var first := parseSequence(input);
    assert MoreAlternatives(first.rest, parseSequence) == Parsed(first.rest, []);
    assert [first.value] + [] == [first.value];
  }

  /** Two alternatives separated by `|` form an alternation of both, in
      order, spanning from the first to the second. */
  lemma TwoAlternatives(input: Input, parseSequence: Input -> PResult<Rule>)
    requires IsParser(parseSequence)
    requires !input.StartsWith(Pipe) && parseSequence(input).Parsed?
    requires var r1 := parseSequence(input).rest;
      r1.StartsWith(Pipe) && parseSequence(r1.Advance()).Parsed? &&
      !parseSequence(r1.Advance()).rest.StartsWith(Pipe)
    ensures var a := parseSequence(input);
      var b := parseSequence(a.rest.Advance());
      ParseOr(input, parseSequence) == Parsed(b.rest, Alternation([a.value, b.value], a.value.SpanOf().Join(b.value.SpanOf())))
  {
    var a := parseSequence(input);
    var b := parseSequence(a.rest.Advance());
    assert MoreAlternatives(b.rest, parseSequence) == Parsed(b.rest, []);
    assert [b.value] + [] == [b.value];
    assert MoreAlternatives(a.rest, parseSequence) == Parsed(b.rest, [b.value]);
    assert [a.value] + [b.value] == [a.value, b.value];
  }

  /** The closure of `parse_sequence`: a single part stands for itself,
      several form a group without capture spanning from the first to the
      last. */
  function SequenceResult(rules: seq<Rule>): (r: Rule)
    requires |rules| >= 1
    ensures |rules| == 1 ==> r == rules[0]
    ensures |rules| > 1 ==> r.Group? && r.parts == rules && r.capture.None?
    ensures |rules| > 1 ==> r.span == JoinSpans(rules)
  {
    if |rules| == 1 then rules[0]
    else Group(rules, None, rules[0].SpanOf().Join(rules[|rules| - 1].SpanOf()))
  }

  /** `many0(parse_fixes)`. */
  function ManyFixes(input: Input, parseFixes: Input -> PResult<Rule>): (r: PResult<seq<Rule>>)
    requires IsConsumingParser(parseFixes)
    ensures !r.Error?
    ensures r.Parsed? ==> input.SuffixOf(r.rest)
    decreases |input.tokens|
  {
    var f := parseFixes(input);
    if f.Error? then Parsed(input, [])
    else if f.Failure? then Failure(f.err)
    else
      var more := ManyFixes(f.rest, parseFixes);
      if more.Parsed? then
        SuffixTrans(input, f.rest, more.rest);
        Parsed(more.rest, [f.value] + more.value)
      else more
  }

  /** `parse_sequence`: one or more parts (`many1`), then the closure. */
  function ParseSequence(input: Input, parseFixes: Input -> PResult<Rule>): (r: PResult<Rule>)
    requires IsConsumingParser(parseFixes)
    ensures r.Error? <==> parseFixes(input).Error?
    ensures parseFixes(input).Failure? ==> r == parseFixes(input)
    ensures r.Parsed? ==> input.SuffixOf(r.rest) && |r.rest.tokens| < |input.tokens|
  {
    var first := parseFixes(input);
    if !first.Parsed? then first
    else
      var more := ManyFixes(first.rest, parseFixes);
      if !more.Parsed? then Failure(more.err)
      else
        SuffixTrans(input, first.rest, more.rest);
        Parsed(more.rest, SequenceResult([first.value] + more.value))
  }

  /** A single part followed by nothing that starts another stands for
      itself: `parse_sequence` does not wrap it. */
  lemma SequenceOfOne(input: Input, parseFixes: Input -> PResult<Rule>)
    requires IsConsumingParser(parseFixes)
    requires parseFixes(input).Parsed? && parseFixes(parseFixes(input).rest).Error?
    ensures ParseSequence(input, parseFixes) == Parsed(parseFixes(input).rest, parseFixes(input).value)
  {
    var a := parseFixes(input);
    assert ManyFixes(a.rest, parseFixes) == Parsed(a.rest, []);
    assert [a.value] + [] == [a.value];
  }

  /** Two parts form a group without capture, holding both in order and
      spanning from the first to the second. */
  lemma SequenceOfTwo(input: Input, parseFixes: Input -> PResult<Rule>)
    requires IsConsumingParser(parseFixes)
    requires parseFixes(input).Parsed?
    requires var r1 := parseFixes(input).rest;
      parseFixes(r1).Parsed? && parseFixes(parseFixes(r1).rest).Error?
    ensures var a := parseFixes(input);
      var b := parseFixes(a.rest);
      ParseSequence(input, parseFixes) == Parsed(b.rest, Group([a.value, b.value], None, a.value.SpanOf().Join(b.value.SpanOf())))
  {
    var a := parseFixes(input);
    var b := parseFixes(a.rest);
    assert ManyFixes(b.rest, parseFixes) == Parsed(b.rest, []);
    assert [b.value] + [] == [b.value];
    assert ManyFixes(a.rest, parseFixes) == Parsed(b.rest, [b.value]);
    assert [a.value] + [b.value] == [a.value, b.value];
  }

  /** Once the first part is read, a fatal error of any later part is the
      sequence's own fatal error; here, of the second part. */
  lemma SequenceFailsAtSecond(input: Input, parseFixes: Input -> PResult<Rule>)
    requires IsConsumingParser(parseFixes)
    requires parseFixes(input).Parsed? && parseFixes(parseFixes(input).rest).Failure?
    ensures ParseSequence(input, parseFixes) == Failure(parseFixes(parseFixes(input).rest).err)
  {
  }
}
