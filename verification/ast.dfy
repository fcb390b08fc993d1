/** The rules the parser builds. The per-node modules (`alternation.rs`,
    `group.rs`, `repetition.rs`, `char_group.rs`, `range.rs`, `stmt.rs`, ...)
    are not part of this model: each node keeps what the parser hands to its
    constructor, and the few constructors whose outcome the parser inspects
    (`RepetitionKind::try_from`, `CharGroup::try_from_range`,
    `CharGroup::add`) are given the behaviour listed in README.md.
    Boundaries, lookarounds and references, whose parsers are outside this
    model, are all `Other`. */
module Ast {
  import opened Wrappers
  import opened Spans

  datatype Quantifier = Greedy | Lazy | Default

  /** How often a rule repeats: at least `lower` times, at most `upper` (no
      upper bound when `None`). */
  datatype RepetitionKind = RepetitionKind(lower: nat, upper: Option<nat>)

  const ZeroOne: RepetitionKind := RepetitionKind(0, Some(1))
  const OneInf: RepetitionKind := RepetitionKind(1, None)
  const ZeroInf: RepetitionKind := RepetitionKind(0, None)

  function Fixed(n: nat): RepetitionKind {
    RepetitionKind(n, Some(n))
  }

  /** How a repetition was written: `?`, `+`, with `greedy`/`lazy` after it,
      or any other way (`*`, `{...}`). */
  datatype RepSyntax = QuestionMark | Plus | ExplicitQuantifier | Other

  datatype GroupItem = Char(c: char) | CharRange(first: char, last: char) | Named(name: string, negative: bool)

  datatype CharGroup = Dot | Items(items: seq<GroupItem>)

  function FromChar(c: char): CharGroup {
    Items([Char(c)])
  }

  function FromChars(s: string): (g: CharGroup)
    ensures g.Items? && |g.items| == |s|
    ensures forall i :: 0 <= i < |s| ==> g.items[i] == Char(s[i])
  {
    Items(seq(|s|, i requires 0 <= i < |s| => Char(s[i])))
  }

  /** `CharGroup::try_from_range`: a range item, or nothing when the range
      descends. */
  function TryFromRange(first: char, last: char): Option<CharGroup> {
    if first <= last then Some(Items([CharRange(first, last)])) else None
  }

  datatype Capture = Capture(name: Option<string>)

  datatype BooleanSetting = Lazy

  /** A range literal: the digits of both bounds in the given radix. */
  datatype RangeExpr = RangeExpr(start: seq<nat>, end: seq<nat>, radix: nat, span: Span)

  datatype Stmt =
    | Enable(setting: BooleanSetting)
    | Disable(setting: BooleanSetting)
    | Let(name: string, rule: Rule, nameSpan: Span)

  datatype Rule =
    | Literal(content: string, span: Span)
    | CharClass(group: CharGroup, span: Span)
    | Group(parts: seq<Rule>, capture: Option<Capture>, span: Span)
    | Alternation(alternatives: seq<Rule>, span: Span)
    | Repetition(inner: Rule, kind: RepetitionKind, quantifier: Quantifier, span: Span)
    | Variable(name: string, span: Span)
    | RangeRule(range: RangeExpr)
    | StmtExpr(stmt: Stmt, body: Rule, span: Span)
    | Other(span: Span)
  {
    /** `Rule::span`. */
    function SpanOf(): Span {
      if RangeRule? then range.span else span
    }
  }

  /** The span from the first to the last of `rules`. */
  function JoinSpans(rules: seq<Rule>): Span {
    if rules == [] then Empty else rules[0].SpanOf().Join(rules[|rules| - 1].SpanOf())
  }

  /** `Alternation::new_expr`: one alternation over the given alternatives. */
  function NewAlternation(rules: seq<Rule>): Rule {
    Alternation(rules, JoinSpans(rules))
  }
}
