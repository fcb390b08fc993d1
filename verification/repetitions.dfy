/** Repetitions after an atom: `?`, `+`, `*`, `{n}`, `{m,n}`, each
    optionally followed by `greedy` or `lazy` (`parse_repetition`,
    `parse_braced_repetition` and the repetition branch of `parse_fixes` in
    `pomsky-lib/src/parse/parsers.rs`). */
module Repetitions {
  import opened Wrappers
  import opened Text
  import opened Spans
  import opened Tokens
  import opened Errors
  import opened Nom
  import opened RustInt
  import opened Ast
  import opened Statements

  /** One parsed repetition: its kind, quantifier, span, and how it was
      written. */
  datatype Rep = Rep(kind: RepetitionKind, quantifier: Quantifier, span: Span, syntax: RepSyntax)

  /** `parse_u32`: a number token as a `u32`; any failure to convert it is
      a fatal `TooLarge` at the token. */
  function ParseU32(input: Input): (r: PResult<nat>)
    ensures Consumed(input, r)
    ensures r.Error? <==> !input.StartsWith(TokenKind.Number)
    ensures r.Error? ==> r.err == ExpectedToken(TokenKind.Number).At(input.FirstSpan())
    ensures r.Failure? ==> r.err == ParseErrorKind.Number(NumberError.TooLarge).At(input.FirstSpan())
    ensures r.Parsed? ==> r.rest == input.Advance() && r.value <= U32Max
  {
    var t := ExpectToken(input, TokenKind.Number);
    if !t.Parsed? then Error(t.err)
    else match FromStrRadix(Utf8(t.value.0), 10, U32Max)
      case Ok(n) => Parsed(t.rest, n)
      case Err(_) => Failure(ParseErrorKind.Number(NumberError.TooLarge).At(input.FirstSpan()))
  }

  /** `RepetitionKind::try_from((lower, upper))`: the bounds must not
      descend. */
  function TryFromBounds(lower: nat, upper: Option<nat>): (r: Result<RepetitionKind, RepetitionError>)
    ensures r.Ok? <==> upper.None? || lower <= upper.value
    ensures r.Ok? ==> r.value == RepetitionKind(lower, upper)
    ensures r.Err? ==> r.error == NotAscending
  {
    if upper.Some? && lower > upper.value then Err(NotAscending) else Ok(RepetitionKind(lower, upper))
  }

  /** What may stand between the braces: `m,n`, `m,`, `,n`, `,` (a missing
      lower bound is 0, a missing upper one unbounded), or a single `n`. */
  function BracedBody(input: Input): (r: PResult<RepetitionKind>)
    ensures Consumed(input, r)
    ensures r.Error? ==> r.err == ExpectedToken(TokenKind.Number).At(input.FirstSpan())
  {
    var lo := ParseU32(input);
    if lo.Failure? then Failure(lo.err)
    else
      var afterLo := if lo.Parsed? then lo.rest else input;
      var comma := ExpectToken(afterLo, Comma);
      if comma.Parsed? then
        var hi := ParseU32(comma.rest);
        if hi.Failure? then Failure(hi.err)
        else
          var rest := if hi.Parsed? then hi.rest else comma.rest;
          SuffixTrans(input, afterLo, comma.rest);
          SuffixTrans(input, comma.rest, rest);
          match TryFromBounds(if lo.Parsed? then lo.value else 0, if hi.Parsed? then Some(hi.value) else None)
          case Ok(k) => Parsed(rest, k)
          case Err(e) => Failure(ParseErrorKind.Repetition(e).At(input.FirstSpan()))
      // Without a comma, the second alternative reads the same number again.
      else if lo.Parsed? then Parsed(lo.rest, Fixed(lo.value))
      else Error(lo.err)
  }

  /** `parse_braced_repetition`: committed after the opening brace. */
  function ParseBracedRepetition(input: Input): (r: PResult<(RepetitionKind, Span, RepSyntax)>)
    ensures Consumed(input, r)
    ensures r.Error? <==> !input.StartsWith(OpenBrace)
    ensures r.Parsed? ==> r.value.2 == RepSyntax.Other
  {
    var open := ExpectToken(input, OpenBrace);
    if !open.Parsed? then Error(open.err)
    else
      var body := Cut(BracedBody(open.rest));
      if !body.Parsed? then Failure(body.err)
      else
        var close := Cut(ExpectToken(body.rest, CloseBrace));
        if !close.Parsed? then Failure(close.err)
        else
          SuffixTrans(input, open.rest, body.rest);
          SuffixTrans(input, body.rest, close.rest);
          Parsed(close.rest, (body.value, open.value.1.Join(close.value.1), RepSyntax.Other))
  }

  /** How a repetition counts for the check against doubled repetitions:
      an explicit quantifier wins, then `?` and `+`; all else is other. */
  function ClassifyRepSyntax(rs1: RepSyntax, rs2: RepSyntax): (r: RepSyntax)
    ensures rs2 == ExplicitQuantifier ==> r == ExplicitQuantifier
    ensures rs2 != ExplicitQuantifier && rs1 in {RepSyntax.QuestionMark, RepSyntax.Plus} ==> r == rs1
    ensures rs2 != ExplicitQuantifier && rs1 !in {RepSyntax.QuestionMark, RepSyntax.Plus} ==> r == RepSyntax.Other
  {
    if rs2 == ExplicitQuantifier then ExplicitQuantifier
    else if rs1 == RepSyntax.QuestionMark then RepSyntax.QuestionMark
    else if rs1 == RepSyntax.Plus then RepSyntax.Plus
    else RepSyntax.Other
  }

  /** The repetition operator: `?`, `+`, `*` or a braced repetition, with
      its kind, its span and how it was written. */
  function ParseRepOperator(input: Input): (r: PResult<(RepetitionKind, Span, RepSyntax)>)
    ensures Consumed(input, r)
    ensures r.Error? <==> !(input.StartsWith(TokenKind.QuestionMark) || input.StartsWith(TokenKind.Plus)
                            || input.StartsWith(Star) || input.StartsWith(OpenBrace))
    ensures input.StartsWith(TokenKind.QuestionMark) ==>
      r == Parsed(input.Advance(), (ZeroOne, input.tokens[0].span, RepSyntax.QuestionMark))
    ensures input.StartsWith(TokenKind.Plus) ==>
      r == Parsed(input.Advance(), (OneInf, input.tokens[0].span, RepSyntax.Plus))
    ensures input.StartsWith(Star) ==>
      r == Parsed(input.Advance(), (ZeroInf, input.tokens[0].span, RepSyntax.Other))
    ensures input.StartsWith(OpenBrace) ==> r == ParseBracedRepetition(input) && (r.Parsed? ==> r.value.2 == RepSyntax.Other)
  {
    var q := ExpectToken(input, TokenKind.QuestionMark);
    var p := ExpectToken(input, TokenKind.Plus);
    var s := ExpectToken(input, Star);
    if q.Parsed? then Parsed(q.rest, (ZeroOne, q.value.1, RepSyntax.QuestionMark))
    else if p.Parsed? then Parsed(p.rest, (OneInf, p.value.1, RepSyntax.Plus))
    else if s.Parsed? then Parsed(s.rest, (ZeroInf, s.value.1, RepSyntax.Other))
    else ParseBracedRepetition(input)
  }

  /** Whether the input starts with a `greedy` or `lazy` quantifier. */
  predicate StartsWithQuantifier(input: Input) {
    input.StartsWithWord("greedy") || input.StartsWithWord("lazy")
  }

  /** `parse_repetition`: the repetition operator, then an optional
      `greedy` or `lazy`. A written quantifier makes the repetition an
      explicit one; otherwise `?` and `+` keep their own syntax class and
      everything else is other. */
  function ParseRepetition(input: Input): (r: PResult<Rep>)
    ensures Consumed(input, r)
    ensures r.Error? <==> !(input.StartsWith(TokenKind.QuestionMark) || input.StartsWith(TokenKind.Plus)
                            || input.StartsWith(Star) || input.StartsWith(OpenBrace))
  {
    var op := ParseRepOperator(input);
    if !op.Parsed? then Fail(op)
    else
      var (kind, span1, rs1) := op.value;
      var greedy := ExpectWord(op.rest, "greedy");
      var lazy := ExpectWord(op.rest, "lazy");
      var quantifier := if greedy.Parsed? then Greedy else if lazy.Parsed? then Quantifier.Lazy else Default;
      var span2 := if greedy.Parsed? then greedy.value else if lazy.Parsed? then lazy.value else Span.Empty;
      var rs2 := if greedy.Parsed? || lazy.Parsed? then ExplicitQuantifier else RepSyntax.Other;
      var rest := if greedy.Parsed? then greedy.rest else if lazy.Parsed? then lazy.rest else op.rest;
      SuffixTrans(input, op.rest, rest);
      Parsed(rest, Rep(kind, quantifier, span1.Join(span2), ClassifyRepSyntax(rs1, rs2)))
  }

  /** What `parse_repetition` reads: it succeeds exactly when the operator
      does, keeps the operator's kind, takes the quantifier from a
      following `greedy` or `lazy` (consuming it), and classifies the
      syntax: a written quantifier makes it explicit; otherwise `?` and `+`
      are their own class and everything else is other. */
  lemma ParseRepetitionMeaning(input: Input)
    ensures ParseRepetition(input).Parsed? <==> ParseRepOperator(input).Parsed?
    ensures !ParseRepetition(input).Parsed? ==> ParseRepetition(input).err == ParseRepOperator(input).err
    ensures ParseRepetition(input).Parsed? ==>
      var r := ParseRepetition(input);
      var op := ParseRepOperator(input).value;
      var w := ParseRepOperator(input).rest;
      && r.value.kind == op.0
      && r.value.quantifier == (if w.StartsWithWord("greedy") then Greedy
                                else if w.StartsWithWord("lazy") then Quantifier.Lazy
                                else Default)
      && r.value.syntax == (if StartsWithQuantifier(w) then ExplicitQuantifier
                            else if input.StartsWith(TokenKind.QuestionMark) then RepSyntax.QuestionMark
                            else if input.StartsWith(TokenKind.Plus) then RepSyntax.Plus
                            else RepSyntax.Other)
      && r.rest == (if StartsWithQuantifier(w) then w.Advance() else w)
      && r.value.span == op.1.Join(if StartsWithQuantifier(w) then w.tokens[0].span else Span.Empty)
  {
  }

  /** `many0(parse_repetition)`. */
  function ParseRepetitions(input: Input): (r: PResult<seq<Rep>>)
    ensures !r.Error?
    ensures r.Parsed? ==> input.SuffixOf(r.rest)
    decreases |input.tokens|
  {
    var rep := ParseRepetition(input);
    if rep.Error? then Parsed(input, [])
    else if rep.Failure? then Failure(rep.err)
    else
      var more := ParseRepetitions(rep.rest);
      if more.Parsed? then
        SuffixTrans(input, rep.rest, more.rest);
        Parsed(more.rest, [rep.value] + more.value)
      else more
  }

  /** `?` or `+` directly after `?`, `+` or a plain repetition is rejected;
      an explicit `greedy` or `lazy` in between makes it acceptable. */
  function Violation(prev: RepSyntax, next: RepSyntax): (e: Option<RepetitionError>)
    ensures e.Some? <==> prev != ExplicitQuantifier && next in {RepSyntax.QuestionMark, RepSyntax.Plus}
  {
    if prev != ExplicitQuantifier && next == RepSyntax.QuestionMark then Some(QuestionMarkAfterRepetition)
    else if prev != ExplicitQuantifier && next == RepSyntax.Plus then Some(PlusAfterRepetition)
    else None
  }

  /** The repetitions applied to `rule` in order, the last outermost, each
      spanning the rule so far and its own span; `prev` is the syntax of the
      repetition before the first one. */
  function FoldRepsFrom(rule: Rule, prev: RepSyntax, reps: seq<Rep>): Result<Rule, ParseError>
    decreases |reps|
  {
    if |reps| == 0 then Ok(rule)
    else match Violation(prev, reps[0].syntax)
      case Some(e) => Err(ParseErrorKind.Repetition(e).At(reps[0].span))
      case None =>
        FoldRepsFrom(Rule.Repetition(rule, reps[0].kind, reps[0].quantifier, rule.SpanOf().Join(reps[0].span)),
                     reps[0].syntax, reps[1..])
  }

  /** The closure of the repetition branch of `parse_fixes`: more than 64
      repetitions exceed the nesting limit, else fold them. */
  function RepeatedResult(rule: Rule, reps: seq<Rep>): Result<Rule, ParseError> {
    if |reps| > 64 then Err(RecursionLimit.At(reps[64].span.Join(reps[|reps| - 1].span)))
    else FoldRepsFrom(rule, ExplicitQuantifier, reps)
  }

  method RepeatClosure(rule: Rule, reps: seq<Rep>) returns (r: Result<Rule, ParseError>)
    ensures r == RepeatedResult(rule, reps)
  {
    if |reps| > 64 {
      return Err(RecursionLimit.At(reps[64].span.Join(reps[|reps| - 1].span)));
    }
    var prevSyntax := ExplicitQuantifier;
    var acc := rule;
    var i := 0;
    while i < |reps|
      invariant 0 <= i <= |reps|
      invariant FoldRepsFrom(acc, prevSyntax, reps[i..]) == RepeatedResult(rule, reps)
    {
      assert reps[i..][1..] == reps[i + 1..];
      var rep := reps[i];
      var v := Violation(prevSyntax, rep.syntax);
      if v.Some? {
        return Err(ParseErrorKind.Repetition(v.value).At(rep.span));
      }
      prevSyntax := rep.syntax;
      acc := Rule.Repetition(acc, rep.kind, rep.quantifier, acc.SpanOf().Join(rep.span));
      i := i + 1;
    }
    assert reps[i..] == [];
    return Ok(acc);
  }

  /** No two neighbouring repetitions form a violation. */
  predicate NoViolation(prev: RepSyntax, reps: seq<Rep>) {
    && (|reps| > 0 ==> Violation(prev, reps[0].syntax).None?)
    && forall i :: 0 < i < |reps| ==> Violation(reps[i - 1].syntax, reps[i].syntax).None?
  }

  /** The repetitions nested around `rule`, without any check. */
  function Nest(rule: Rule, reps: seq<Rep>): Rule
    decreases |reps|
  {
    if |reps| == 0 then rule
    else Nest(Rule.Repetition(rule, reps[0].kind, reps[0].quantifier, rule.SpanOf().Join(reps[0].span)), reps[1..])
  }

  /** The fold succeeds exactly when no repetition follows another in a
      rejected way, and then it nests all repetitions around the rule. */
  lemma {:induction false} FoldRepsMeaning(rule: Rule, prev: RepSyntax, reps: seq<Rep>)
    ensures FoldRepsFrom(rule, prev, reps).Ok? <==> NoViolation(prev, reps)
    ensures FoldRepsFrom(rule, prev, reps).Ok? ==> FoldRepsFrom(rule, prev, reps).value == Nest(rule, reps)
    decreases |reps|
  {
    if |reps| > 0 {
      var next := Rule.Repetition(rule, reps[0].kind, reps[0].quantifier, rule.SpanOf().Join(reps[0].span));
      FoldRepsMeaning(next, reps[0].syntax, reps[1..]);
      var tail := reps[1..];
      if NoViolation(prev, reps) && |tail| > 0 {
        forall i | 0 < i < |tail|
          ensures Violation(tail[i - 1].syntax, tail[i].syntax).None?
        {
          assert tail[i - 1] == reps[i] && tail[i] == reps[i + 1];
        }
        assert tail[0] == reps[1];
      }
      if Violation(prev, reps[0].syntax).None? && NoViolation(reps[0].syntax, tail) {
        forall i | 0 < i < |reps|
          ensures Violation(reps[i - 1].syntax, reps[i].syntax).None?
        {
          if i > 1 {
            assert reps[i - 1] == tail[i - 2] && reps[i] == tail[i - 1];
          }
        }
      }
    }
  }

  /** The syntax of the repetition before the `j`-th one. */
  function PrevSyntax(prev: RepSyntax, reps: seq<Rep>, j: nat): RepSyntax
    requires j <= |reps|
  {
    if j == 0 then prev else reps[j - 1].syntax
  }

  /** The `j`-th repetition is the first one rejected after its
      predecessor. */
  predicate RejectedAt(prev: RepSyntax, reps: seq<Rep>, j: nat) {
    && j < |reps|
    && NoViolation(prev, reps[..j])
    && Violation(PrevSyntax(prev, reps, j), reps[j].syntax).Some?
  }

  /** A rejection in the tail, after an accepted first repetition, is a
      rejection one place further on in the whole sequence. */
  lemma RejectedLater(prev: RepSyntax, reps: seq<Rep>, k: nat)
    requires |reps| > 0 && Violation(prev, reps[0].syntax).None?
    requires RejectedAt(reps[0].syntax, reps[1..], k)
    ensures RejectedAt(prev, reps, k + 1)
    ensures PrevSyntax(prev, reps, k + 1) == PrevSyntax(reps[0].syntax, reps[1..], k)
    ensures reps[k + 1] == reps[1..][k]
  {
    var tail := reps[1..];
    var head := reps[..k + 1];
    assert tail[..k] == head[1..];
    forall i | 0 < i < |head|
      ensures Violation(head[i - 1].syntax, head[i].syntax).None?
    {
      if i > 1 {
        assert head[i - 1] == tail[..k][i - 2] && head[i] == tail[..k][i - 1];
      }
    }
  }

  /** A failed fold reports the first rejected repetition: its error kind
      (`?` or `+` after a repetition) at that repetition's own span. */
  lemma {:induction false} FoldRepsRejects(rule: Rule, prev: RepSyntax, reps: seq<Rep>)
    ensures FoldRepsFrom(rule, prev, reps).Err? ==>
      exists j: nat :: RejectedAt(prev, reps, j) &&
        FoldRepsFrom(rule, prev, reps).error
          == ParseErrorKind.Repetition(Violation(PrevSyntax(prev, reps, j), reps[j].syntax).value).At(reps[j].span)
    decreases |reps|
  {
    if |reps| > 0 && FoldRepsFrom(rule, prev, reps).Err? {
      if Violation(prev, reps[0].syntax).Some? {
        assert reps[..0] == [];
        assert RejectedAt(prev, reps, 0);
      } else {
        var tail := reps[1..];
        var next := Rule.Repetition(rule, reps[0].kind, reps[0].quantifier, rule.SpanOf().Join(reps[0].span));
        assert FoldRepsFrom(rule, prev, reps) == FoldRepsFrom(next, reps[0].syntax, tail);
        FoldRepsRejects(next, reps[0].syntax, tail);
        var k: nat :| RejectedAt(reps[0].syntax, tail, k) &&
          FoldRepsFrom(next, reps[0].syntax, tail).error
            == ParseErrorKind.Repetition(Violation(PrevSyntax(reps[0].syntax, tail, k), tail[k].syntax).value).At(tail[k].span);
        RejectedLater(prev, reps, k);
      }
    }
  }

  /** The first of a chain of repetitions is never rejected: after an atom
      any repetition is allowed. */
  lemma FirstRepetitionAllowed(rule: Rule, rep: Rep)
    ensures RepeatedResult(rule, [rep]).Ok?
  {
    FoldRepsMeaning(rule, ExplicitQuantifier, [rep]);
  }

  /** `Nest` puts the last repetition outermost. */
  lemma {:induction false} NestSnoc(rule: Rule, reps: seq<Rep>, last: Rep)
    ensures var inner := Nest(rule, reps);
      Nest(rule, reps + [last]) == Rule.Repetition(inner, last.kind, last.quantifier, inner.SpanOf().Join(last.span))
    decreases |reps|
  {
    if |reps| > 0 {
      assert (reps + [last])[1..] == reps[1..] + [last];
      NestSnoc(Rule.Repetition(rule, reps[0].kind, reps[0].quantifier, rule.SpanOf().Join(reps[0].span)), reps[1..], last);
    }
  }

  /** The kinds and quantifiers of the outermost `n` repetitions, innermost
      first, and the rule inside them. */
  function PeelReps(rule: Rule, n: nat): (seq<(RepetitionKind, Quantifier)>, Rule) {
    if n == 0 || !rule.Repetition? then ([], rule)
    else
      var p := PeelReps(rule.inner, n - 1);
      (p.0 + [(rule.kind, rule.quantifier)], p.1)
  }

  function KindsOf(reps: seq<Rep>): (r: seq<(RepetitionKind, Quantifier)>)
    ensures |r| == |reps|
    ensures forall i :: 0 <= i < |reps| ==> r[i] == (reps[i].kind, reps[i].quantifier)
  {
    seq(|reps|, i requires 0 <= i < |reps| => (reps[i].kind, reps[i].quantifier))
  }

  /** Nesting loses nothing: peeling gives back every repetition, in the
      order written, and the atom. */
  lemma {:induction false} PeelNest(rule: Rule, reps: seq<Rep>)
    ensures PeelReps(Nest(rule, reps), |reps|) == (KindsOf(reps), rule)
    decreases |reps|
  {
    if |reps| > 0 {
      var init := reps[..|reps| - 1];
      var last := reps[|reps| - 1];
      assert reps == init + [last];
      NestSnoc(rule, init, last);
      PeelNest(rule, init);
      assert KindsOf(reps) == KindsOf(init) + [(last.kind, last.quantifier)];
    }
  }

  /** The whole check: at most 64 repetitions, none rejected after its
      predecessor; then the atom with all repetitions around it. */
  lemma RepeatedResultMeaning(rule: Rule, reps: seq<Rep>)
    ensures RepeatedResult(rule, reps).Ok? <==> |reps| <= 64 && NoViolation(ExplicitQuantifier, reps)
    ensures RepeatedResult(rule, reps).Ok? ==>
      PeelReps(RepeatedResult(rule, reps).value, |reps|) == (KindsOf(reps), rule)
    ensures |reps| > 64 ==>
      RepeatedResult(rule, reps) == Err(RecursionLimit.At(reps[64].span.Join(reps[|reps| - 1].span)))
    ensures |reps| <= 64 && RepeatedResult(rule, reps).Err? ==>
      exists j: nat :: RejectedAt(ExplicitQuantifier, reps, j) &&
        RepeatedResult(rule, reps).error
          == ParseErrorKind.Repetition(Violation(PrevSyntax(ExplicitQuantifier, reps, j), reps[j].syntax).value).At(reps[j].span)
  {
    FoldRepsMeaning(rule, ExplicitQuantifier, reps);
    FoldRepsRejects(rule, ExplicitQuantifier, reps);
    PeelNest(rule, reps);
  }

  /** The repetition branch of `parse_fixes`: an atom, its repetitions, and
      the closure, whose error is fatal. The atom parser is a parameter. */
  function ParseRepeatedAtom(input: Input, parseAtom: Input -> PResult<Rule>): (r: PResult<Rule>)
    requires IsParser(parseAtom)
    ensures r.Error? <==> parseAtom(input).Error?
    ensures r.Parsed? ==> input.SuffixOf(r.rest)
  {
    var atom := parseAtom(input);
    if !atom.Parsed? then atom
    else
      var reps := ParseRepetitions(atom.rest);
      if !reps.Parsed? then Failure(reps.err)
      else match RepeatedResult(atom.value, reps.value)
        case Ok(rule) =>
          SuffixTrans(input, atom.rest, reps.rest);
          Parsed(reps.rest, rule)
        case Err(e) => Failure(e)
  }

  predicate IsRepOperator(k: TokenKind) {
    k in {TokenKind.QuestionMark, TokenKind.Plus, Star}
  }

  /** A bare `?`, `+` or `*` (no quantifier after it) is one repetition of
      its kind, with default quantifier and the operator's span. */
  lemma RepOperator(input: Input)
    requires |input.tokens| >= 2 && IsRepOperator(input.tokens[0].kind) && input.tokens[1].kind != Identifier
    ensures var t := input.tokens[0];
      ParseRepetition(input) == Parsed(input.Advance(),
        if t.kind == TokenKind.QuestionMark then Rep(ZeroOne, Default, t.span, RepSyntax.QuestionMark)
        else if t.kind == TokenKind.Plus then Rep(OneInf, Default, t.span, RepSyntax.Plus)
        else Rep(ZeroInf, Default, t.span, RepSyntax.Other))
  {
    ParseRepetitionMeaning(input);
  }

  /** `many0` stops at once where no repetition starts. */
  lemma NoRepetitions(input: Input)
    requires !(input.StartsWith(TokenKind.QuestionMark) || input.StartsWith(TokenKind.Plus)
               || input.StartsWith(Star) || input.StartsWith(OpenBrace))
    ensures ParseRepetitions(input) == Parsed(input, [])
  {
    assert ParseRepetition(input).Error?;
  }

  /** One step of `many0`: a parsed repetition in front of the last one. */
  lemma ConsOne(a: Input, b: Input, c: Input, rep0: Rep, rep1: Rep)
    requires ParseRepetition(a) == Parsed(b, rep0)
    requires ParseRepetitions(b) == Parsed(c, [rep1])
    ensures ParseRepetitions(a) == Parsed(c, [rep0, rep1])
  {
    assert [rep0] + [rep1] == [rep0, rep1];
  }

  /** A last repetition, followed by something that starts no
      repetition, is all that `many0` collects. */
  lemma LastRepetition(b: Input, c: Input, rep: Rep)
    requires ParseRepetition(b) == Parsed(c, rep)
    requires ParseRepetition(c).Error?
    ensures ParseRepetitions(b) == Parsed(c, [rep])
  {
    assert [rep] + [] == [rep];
  }

  /** The repetition branch of `parse_fixes` once the atom and its
      repetitions are read, when the closure rejects them. */
  lemma RepeatedAtomFails(input: Input, parseAtom: Input -> PResult<Rule>, rest: Input, reps: seq<Rep>, e: ParseError)
    requires IsParser(parseAtom)
    requires parseAtom(input).Parsed? && ParseRepetitions(parseAtom(input).rest) == Parsed(rest, reps)
    requires RepeatedResult(parseAtom(input).value, reps) == Err(e)
    ensures ParseRepeatedAtom(input, parseAtom) == Failure(e)
  {
  }

  /** The same when the closure accepts them. */
  lemma RepeatedAtomParses(input: Input, parseAtom: Input -> PResult<Rule>, rest: Input, reps: seq<Rep>, rule: Rule)
    requires IsParser(parseAtom)
    requires parseAtom(input).Parsed? && ParseRepetitions(parseAtom(input).rest) == Parsed(rest, reps)
    requires RepeatedResult(parseAtom(input).value, reps) == Ok(rule)
    ensures ParseRepeatedAtom(input, parseAtom) == Parsed(rest, rule)
  {
  }

  /** A bare `?`, `+` or `*` followed by something that starts no
      repetition is the last repetition. */
  lemma OperatorThenNothing(b: Input)
    requires |b.tokens| >= 2 && IsRepOperator(b.tokens[0].kind)
    requires !IsRepOperator(b.tokens[1].kind) && b.tokens[1].kind != OpenBrace && b.tokens[1].kind != Identifier
    ensures ParseRepetition(b).Parsed?
    ensures ParseRepetitions(b) == Parsed(b.Advance(), [ParseRepetition(b).value])
  {
    RepOperator(b);
    LastRepetition(b, b.Advance(), ParseRepetition(b).value);
  }

  /** Two bare operators in a row, followed by something that starts no
      repetition, are read as two repetitions. */
  lemma TwoOperators(rest: Input)
    requires |rest.tokens| >= 3 && IsRepOperator(rest.tokens[0].kind) && IsRepOperator(rest.tokens[1].kind)
    requires !IsRepOperator(rest.tokens[2].kind) && rest.tokens[2].kind != OpenBrace && rest.tokens[2].kind != Identifier
    ensures ParseRepetition(rest).Parsed? && ParseRepetition(rest.Advance()).Parsed?
    ensures ParseRepetitions(rest) ==
      Parsed(rest.Advance().Advance(), [ParseRepetition(rest).value, ParseRepetition(rest.Advance()).value])
  {
    var r1 := rest.Advance();
    RepOperator(rest);
    OperatorThenNothing(r1);
    ConsOne(rest, r1, r1.Advance(), ParseRepetition(rest).value, ParseRepetition(r1).value);
  }

  /** The fold stops at a second repetition that violates the rule against
      doubled repetitions, when the first one is acceptable. */
  lemma FoldStopsAtSecond(rule: Rule, rep0: Rep, rep1: Rep)
    requires rep0.syntax != ExplicitQuantifier
    requires Violation(rep0.syntax, rep1.syntax).Some?
    ensures FoldRepsFrom(rule, ExplicitQuantifier, [rep0, rep1]) ==
      Err(ParseErrorKind.Repetition(Violation(rep0.syntax, rep1.syntax).value).At(rep1.span))
  {
    var once := Rule.Repetition(rule, rep0.kind, rep0.quantifier, rule.SpanOf().Join(rep0.span));
    assert [rep0, rep1][1..] == [rep1];
    assert FoldRepsFrom(rule, ExplicitQuantifier, [rep0, rep1]) == FoldRepsFrom(once, rep0.syntax, [rep1]);
  }

  /** A `?` or `+` after a repetition that is not explicit ends the
      check with the matching error at the second repetition. */
  lemma SecondRejected(rule: Rule, rep0: Rep, rep1: Rep)
    requires rep0.syntax != ExplicitQuantifier
    requires rep1.syntax in {RepSyntax.QuestionMark, RepSyntax.Plus}
    ensures RepeatedResult(rule, [rep0, rep1]) == Err(ParseErrorKind.Repetition(
      if rep1.syntax == RepSyntax.QuestionMark then QuestionMarkAfterRepetition else PlusAfterRepetition).At(rep1.span))
  {
    FoldStopsAtSecond(rule, rep0, rep1);
  }

  /** Doubled repetitions such as `x??`, `x++` or `x*+` are a fatal error at
      the second operator. */
  lemma DoubledRepetitionRejected(input: Input, parseAtom: Input -> PResult<Rule>)
    requires IsParser(parseAtom)
    requires parseAtom(input).Parsed?
    requires var t := parseAtom(input).rest.tokens;
      && |t| >= 3 && IsRepOperator(t[0].kind) && t[1].kind in {TokenKind.QuestionMark, TokenKind.Plus}
      && !IsRepOperator(t[2].kind) && t[2].kind != OpenBrace && t[2].kind != Identifier
    ensures var t := parseAtom(input).rest.tokens;
      ParseRepeatedAtom(input, parseAtom) == Failure(ParseErrorKind.Repetition(
        if t[1].kind == TokenKind.QuestionMark then QuestionMarkAfterRepetition else PlusAfterRepetition).At(t[1].span))
  {
    var atom := parseAtom(input);
    var rest := atom.rest;
    TwoOperators(rest);
    RepOperator(rest);
    RepOperator(rest.Advance());
    var rep0 := ParseRepetition(rest).value;
    var rep1 := ParseRepetition(rest.Advance()).value;
    SecondRejected(atom.value, rep0, rep1);
    RepeatedAtomFails(input, parseAtom, rest.Advance().Advance(), [rep0, rep1],
      ParseErrorKind.Repetition(if rep1.syntax == RepSyntax.QuestionMark then QuestionMarkAfterRepetition
                                else PlusAfterRepetition).At(rep1.span));
  }

  /** A braced repetition without a quantifier after it is a repetition
      of syntax other, with the default quantifier and the braces' span. */
  lemma BracedRepetition(rest: Input, b: Input, kind: RepetitionKind, span: Span)
    requires ParseBracedRepetition(rest) == Parsed(b, (kind, span, RepSyntax.Other)) && !StartsWithQuantifier(b)
    ensures ParseRepetition(rest) == Parsed(b, Rep(kind, Default, span, RepSyntax.Other))
  {
    assert rest.StartsWith(OpenBrace);
    assert ParseRepOperator(rest) == ParseBracedRepetition(rest);
    ParseRepetitionMeaning(rest);
  }

  /** The kind a bare operator token stands for. */
  function OperatorKind(k: TokenKind): RepetitionKind {
    if k == TokenKind.QuestionMark then ZeroOne else if k == TokenKind.Plus then OneInf else ZeroInf
  }

  /** The repetition a bare `?` or `+` stands for. */
  function BareRep(t: Token): Rep {
    Rep(OperatorKind(t.kind), Default, t.span,
        if t.kind == TokenKind.QuestionMark then RepSyntax.QuestionMark else RepSyntax.Plus)
  }

  /** A bare `?` or `+` not followed by a quantifier. */
  lemma BareOperator(b: Input)
    requires |b.tokens| >= 2 && b.tokens[0].kind in {TokenKind.QuestionMark, TokenKind.Plus}
    requires b.tokens[1].kind != Identifier
    ensures ParseRepetition(b) == Parsed(b.Advance(), BareRep(b.tokens[0]))
  {
    RepOperator(b);
  }

  /** A bare `?` or `+` followed by something that starts no repetition is
      the last repetition. */
  lemma BareThenNothing(b: Input)
    requires |b.tokens| >= 2 && b.tokens[0].kind in {TokenKind.QuestionMark, TokenKind.Plus}
    requires !IsRepOperator(b.tokens[1].kind) && b.tokens[1].kind != OpenBrace && b.tokens[1].kind != Identifier
    ensures ParseRepetitions(b) == Parsed(b.Advance(), [BareRep(b.tokens[0])])
  {
    BareOperator(b);
    LastRepetition(b, b.Advance(), BareRep(b.tokens[0]));
  }

  /** Any repetition followed by a bare `?` or `+` (and then nothing
      that starts a repetition) reads as those two repetitions. */
  lemma ThenBare(a: Input, b: Input, rep0: Rep)
    requires ParseRepetition(a) == Parsed(b, rep0)
    requires |b.tokens| >= 2 && b.tokens[0].kind in {TokenKind.QuestionMark, TokenKind.Plus}
    requires !IsRepOperator(b.tokens[1].kind) && b.tokens[1].kind != OpenBrace && b.tokens[1].kind != Identifier
    ensures ParseRepetitions(a) == Parsed(b.Advance(), [rep0, BareRep(b.tokens[0])])
  {
    BareThenNothing(b);
    ConsOne(a, b, b.Advance(), rep0, BareRep(b.tokens[0]));
  }

  /** A braced repetition without a quantifier, followed by what `many0`
      reads as one more repetition, reads as the two of them. */
  lemma BracedThenOne(rest: Input, b: Input, kind: RepetitionKind, span: Span, c: Input, rep1: Rep)
    requires ParseBracedRepetition(rest) == Parsed(b, (kind, span, RepSyntax.Other))
    requires !StartsWithQuantifier(b)
    requires ParseRepetitions(b) == Parsed(c, [rep1])
    ensures ParseRepetitions(rest) == Parsed(c, [Rep(kind, Default, span, RepSyntax.Other), rep1])
  {
    BracedRepetition(rest, b, kind, span);
    ConsOne(rest, b, c, Rep(kind, Default, span, RepSyntax.Other), rep1);
  }

  /** A `?` or `+` right after a braced repetition, as in `x{2}?` or
      `x{1,3}+`, is a fatal error at that operator: a braced repetition
      without a quantifier counts as a plain one. (`BareThenNothing` gives
      the `?`- or `+`-repetition that a bare `?` or `+` token is.) */
  lemma BracedThenOperatorRejected(input: Input, parseAtom: Input -> PResult<Rule>, c: Input, rep1: Rep)
    requires IsParser(parseAtom)
    requires parseAtom(input).Parsed? && ParseBracedRepetition(parseAtom(input).rest).Parsed?
    requires var b := ParseBracedRepetition(parseAtom(input).rest).rest;
      !StartsWithQuantifier(b) && ParseRepetitions(b) == Parsed(c, [rep1])
    requires rep1.syntax in {RepSyntax.QuestionMark, RepSyntax.Plus}
    ensures ParseRepeatedAtom(input, parseAtom) == Failure(ParseErrorKind.Repetition(
      if rep1.syntax == RepSyntax.QuestionMark then QuestionMarkAfterRepetition else PlusAfterRepetition).At(rep1.span))
  {
    var atom := parseAtom(input);
    var br := ParseBracedRepetition(atom.rest);
    var rep0 := Rep(br.value.0, Default, br.value.1, RepSyntax.Other);
    BracedThenOne(atom.rest, br.rest, br.value.0, br.value.1, c, rep1);
    SecondRejected(atom.value, rep0, rep1);
    RepeatedAtomFails(input, parseAtom, c, [rep0, rep1],
      ParseErrorKind.Repetition(if rep1.syntax == RepSyntax.QuestionMark then QuestionMarkAfterRepetition
                                else PlusAfterRepetition).At(rep1.span));
  }

  /** More generally, a `?` or `+` token right after any repetition of
      syntax other (`*`, or braces without a quantifier: `x*?`, `x{2}+`)
      is a fatal error at that token. */
  lemma OtherThenOperatorRejected(input: Input, parseAtom: Input -> PResult<Rule>)
    requires IsParser(parseAtom)
    requires parseAtom(input).Parsed?
    requires ParseRepetition(parseAtom(input).rest).Parsed?
    requires ParseRepetition(parseAtom(input).rest).value.syntax == RepSyntax.Other
    requires var t := ParseRepetition(parseAtom(input).rest).rest.tokens;
      && |t| >= 2 && t[0].kind in {TokenKind.QuestionMark, TokenKind.Plus}
      && !IsRepOperator(t[1].kind) && t[1].kind != OpenBrace && t[1].kind != Identifier
    ensures var t := ParseRepetition(parseAtom(input).rest).rest.tokens;
      ParseRepeatedAtom(input, parseAtom) == Failure(ParseErrorKind.Repetition(
        if t[0].kind == TokenKind.QuestionMark then QuestionMarkAfterRepetition else PlusAfterRepetition).At(t[0].span))
  {
    var atom := parseAtom(input);
    var first := ParseRepetition(atom.rest);
    var b := first.rest;
    var rep1 := BareRep(b.tokens[0]);
    ThenBare(atom.rest, b, first.value);
    SecondRejected(atom.value, first.value, rep1);
    RepeatedAtomFails(input, parseAtom, b.Advance(), [first.value, rep1],
      ParseErrorKind.Repetition(if rep1.syntax == RepSyntax.QuestionMark then QuestionMarkAfterRepetition
                                else PlusAfterRepetition).At(rep1.span));
  }

  /** The repetition an operator with a written quantifier stands for. */
  function QuantifiedRep(op: Token, q: Token): Rep {
    Rep(OperatorKind(op.kind), if q.text == "greedy" then Greedy else Quantifier.Lazy,
        op.span.Join(q.span), ExplicitQuantifier)
  }

  /** An operator with a written quantifier, then a bare `?` or `+`, reads
      as two repetitions: the first explicit, the second with the default
      quantifier. */
  lemma QuantifiedThenOperator(rest: Input)
    requires var t := rest.tokens;
      && |t| >= 4 && IsRepOperator(t[0].kind)
      && t[1].kind == Identifier && t[1].text in {"greedy", "lazy"}
      && t[2].kind in {TokenKind.QuestionMark, TokenKind.Plus}
      && !IsRepOperator(t[3].kind) && t[3].kind != OpenBrace && t[3].kind != Identifier
    ensures var r1 := rest.Advance().Advance();
      ParseRepetitions(rest) == Parsed(r1.Advance(), [QuantifiedRep(rest.tokens[0], rest.tokens[1]), BareRep(r1.tokens[0])])
  {
    var r1 := rest.Advance().Advance();
    assert ParseRepOperator(rest).rest == rest.Advance();
    assert StartsWithQuantifier(rest.Advance());
    var rep0 := QuantifiedRep(rest.tokens[0], rest.tokens[1]);
    assert ParseRepetition(rest) == Parsed(r1, rep0);
    ThenBare(rest, r1, rep0);
  }

  /** After an explicit repetition any second repetition is accepted, and
      the two nest in order around the rule. */
  lemma ExplicitThenAny(rule: Rule, rep0: Rep, rep1: Rep)
    requires rep0.syntax == ExplicitQuantifier
    ensures RepeatedResult(rule, [rep0, rep1]).Ok?
    ensures PeelReps(RepeatedResult(rule, [rep0, rep1]).value, 2) ==
      ([(rep0.kind, rep0.quantifier), (rep1.kind, rep1.quantifier)], rule)
  {
    var reps := [rep0, rep1];
    assert NoViolation(ExplicitQuantifier, reps);
    RepeatedResultMeaning(rule, reps);
    assert KindsOf(reps) == [(rep0.kind, rep0.quantifier), (rep1.kind, rep1.quantifier)];
  }

  /** A written `greedy` or `lazy` between two operators makes the second
      acceptable: `x? lazy ?` and `x+ greedy +` are two nested repetitions,
      the first with the written quantifier and the second with the
      default one. */
  lemma ExplicitQuantifierAllowsSecond(input: Input, parseAtom: Input -> PResult<Rule>)
    requires IsParser(parseAtom)
    requires parseAtom(input).Parsed?
    requires var t := parseAtom(input).rest.tokens;
      && |t| >= 4 && IsRepOperator(t[0].kind)
      && t[1].kind == Identifier && t[1].text in {"greedy", "lazy"}
      && t[2].kind in {TokenKind.QuestionMark, TokenKind.Plus}
      && !IsRepOperator(t[3].kind) && t[3].kind != OpenBrace && t[3].kind != Identifier
    ensures var atom := parseAtom(input);
      var t := atom.rest.tokens;
      var r := ParseRepeatedAtom(input, parseAtom);
      && r.Parsed?
      && r.rest == atom.rest.Advance().Advance().Advance()
      && PeelReps(r.value, 2) == ([(OperatorKind(t[0].kind), if t[1].text == "greedy" then Greedy else Quantifier.Lazy),
                                   (OperatorKind(t[2].kind), Default)], atom.value)
  {
    var atom := parseAtom(input);
    var rest := atom.rest;
    var r1 := rest.Advance().Advance();
    QuantifiedThenOperator(rest);
    var rep0 := QuantifiedRep(rest.tokens[0], rest.tokens[1]);
    var rep1 := BareRep(r1.tokens[0]);
    ExplicitThenAny(atom.value, rep0, rep1);
    RepeatedAtomParses(input, parseAtom, r1.Advance(), [rep0, rep1], RepeatedResult(atom.value, [rep0, rep1]).value);
  }
}
