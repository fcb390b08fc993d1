/** Byte spans into the source text. `span.rs` is not part of this model:
    a span is either a byte range `start..end` or the empty span that
    `Span::default()` gives, `Join` covers both operands, and the empty
    span is neutral for `Join`. */
module Spans {
  import opened Wrappers

  datatype Span = Span(start: nat, end: nat) | Empty {
    /** The byte range of a span, as `Span::range` gives it. */
    function Range(): (r: Option<(nat, nat)>)
      ensures r.Some? <==> this.Span?
      ensures r.Some? ==> r.value == (start, end)
    {
      match this
      case Span(s, e) => Some((s, e))
      case Empty => None
    }

    /** The smallest span covering both spans. */
    function Join(other: Span): (r: Span)
      ensures this.Empty? ==> r == other
      ensures other.Empty? ==> r == this
      ensures this.Span? && other.Span? ==>
        r == Span(if start <= other.start then start else other.start,
                  if end >= other.end then end else other.end)
    {
      match (this, other)
      case (Empty, _) => other
      case (_, Empty) => this
      case (Span(s1, e1), Span(s2, e2)) =>
        Span(if s1 <= s2 then s1 else s2, if e1 >= e2 then e1 else e2)
    }

    /** `Span::start`: the empty range where the span begins. */
    function StartPoint(): Span {
      match this
      case Span(s, _) => Span(s, s)
      case Empty => Empty
    }
  }
}
