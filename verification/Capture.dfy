/** The raw trace model: what a capture hands to canonicalization. */
module Capture {
  import opened Ir

  datatype SpanLink = SpanLink(traceId: string, spanId: string)

  /** One captured operation. Times are caller-clock instants; 0 is Go's zero time, "unset". */
  datatype Span = Span(
    traceId: string,
    id: string,
    parentId: string,
    name: string,
    kind: Kind,
    attrs: map<string, string>,
    status: string,
    errorType: string,
    start: nat,
    end: nat,
    links: seq<SpanLink>,
    asyncLink: bool,
    goroutine: nat
  )

  /** The part of a span that op keys, attributes and tiers may be derived from: no ids, no clock. */
  datatype Payload = Payload(
    name: string,
    kind: Kind,
    attrs: map<string, string>,
    status: string,
    errorType: string,
    asyncLink: bool
  )

  function PayloadOf(s: Span): Payload {
    Payload(s.name, s.kind, s.attrs, s.status, s.errorType, s.asyncLink)
  }

  /** The value of an attribute, "" when the span does not carry it. */
  function Attr(s: Span, key: string): string {
    if key in s.attrs then s.attrs[key] else ""
  }

  predicate Overlaps(a: Span, b: Span) {
    a.start < b.end && b.start < a.end
  }

  /** Two siblings raced: dispatched onto distinct worker goroutines, or overlapping in time. */
  predicate Concurrent(a: Span, b: Span, parentGoroutine: nat) {
    if && parentGoroutine != 0 && a.goroutine != 0 && b.goroutine != 0
       && a.goroutine != parentGoroutine && b.goroutine != parentGoroutine
       && a.goroutine != b.goroutine
    then true
    else Overlaps(a, b)
  }
}
