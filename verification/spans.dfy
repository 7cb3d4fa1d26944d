/** The regions of memory a caller hands to an allocator (NthSpan). */
module Spans {
  import opened Align

  // In bytes. The null span has size 0.
  datatype Span = Span(base: nat, size: nat)

  const NULL_SPAN := Span(0, 0)

  function End(s: Span): nat {
    s.base + s.size
  }

  // Memory a program can hold: not empty, and one past its end is an address.
  predicate SpanOk(s: Span) {
    0 < s.base && 0 < s.size && End(s) < WORD
  }

  predicate SpansDisjoint(s: Span, t: Span) {
    End(s) <= t.base || End(t) <= s.base
  }
}
