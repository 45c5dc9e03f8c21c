/** Native Datadog spans and the chunks they arrive in, as both the sink and the
    stress checker read them. */
module Spans {
  import opened Basics
  import opened Wrappers

  // The high 64 trace-ID bits, sixteen lower-case hexadecimal digits.
  type Tag = string

  const ZERO_TAG: Tag := "0000000000000000"

  /** One native span. `tid` is meta["_dd.p.tid"], `requestId` is
      meta["rules_stests.request_id"] ("" when absent); an absent parent ID is 0.
      `otherFieldsValid` stands for the remaining, purely local field checks. */
  datatype Span = Span(
    traceId: nat,
    spanId: nat,
    parentId: nat,
    start: int,
    duration: int,
    name: string,
    spanType: string,
    tid: Option<string>,
    requestId: string,
    otherFieldsValid: bool)

  /** A chunk after its own tags were read: low trace bits, the tag if any. */
  datatype Chunk = Chunk(low: nat, high: Option<Tag>, spans: seq<Span>)

  datatype Identity = Identity(low: nat, high: Tag, span: nat)

  predicate IsHexDigit(c: char) {
    '0' <= c <= '9' || 'a' <= c <= 'f' || 'A' <= c <= 'F'
  }

  predicate ValidTid(tid: string) {
    |tid| == 16 && forall i :: 0 <= i < |tid| ==> IsHexDigit(tid[i])
  }

  predicate SameTrace(spans: seq<Span>) {
    forall i :: 0 <= i < |spans| ==> spans[i].traceId == spans[0].traceId
  }

  // Distinct tags of a chunk, compared without regard to case.
  ghost function ChunkTags(spans: seq<Span>): set<Tag> {
    set s | s in spans && s.tid.Some? :: Lower(s.tid.value)
  }

  predicate SpansLinked(xs: seq<Span>, ys: seq<Span>) {
    exists a, b :: a in xs && b in ys && (a.parentId == b.spanId || b.parentId == a.spanId)
  }

  predicate SpansShared(xs: seq<Span>, ys: seq<Span>) {
    exists a, b :: a in xs && b in ys && a.spanId == b.spanId
  }

  /** Two chunks with equal low bits where one names a span of the other as parent. */
  predicate Linked(cs: seq<Chunk>, i: nat, j: nat)
    requires i < |cs| && j < |cs|
  {
    cs[i].low == cs[j].low && SpansLinked(cs[i].spans, cs[j].spans)
  }

  function HighOrZero(high: Option<Tag>): Tag {
    if high.Some? then high.value else ZERO_TAG
  }

  /** The full identity of the k-th span of a chunk. */
  function IdentityOf(c: Chunk, k: nat): Identity
    requires k < |c.spans|
  {
    Identity(c.low, HighOrZero(c.high), c.spans[k].spanId)
  }

  /** The k-th span of chunk i carries the identity. */
  ghost predicate At(cs: seq<Chunk>, i: nat, k: nat, id: Identity) {
    i < |cs| && k < |cs[i].spans| && IdentityOf(cs[i], k) == id
  }

  /** No two different span positions carry the same full identity. */
  ghost predicate DistinctIdentities(cs: seq<Chunk>) {
    forall id, i, k, j, l :: At(cs, i, k, id) && At(cs, j, l, id) ==> i == j && k == l
  }

  // The chunks before i and the first k spans of chunk i.
  ghost function Before(cs: seq<Chunk>, i: nat, k: nat): (r: seq<Chunk>)
    requires i < |cs| && k <= |cs[i].spans|
  {
    cs[..i] + [cs[i].(spans := cs[i].spans[..k])]
  }

  lemma AtNext(cs: seq<Chunk>, i: nat, k: nat, j: nat, l: nat, id: Identity)
    requires i < |cs| && k < |cs[i].spans|
    ensures At(Before(cs, i, k + 1), j, l, id) <==>
            At(Before(cs, i, k), j, l, id) || (j == i && l == k && id == IdentityOf(cs[i], k))
    ensures At(Before(cs, i, 0), j, l, id) <==> At(cs[..i], j, l, id)
    ensures At(Before(cs, i, k + 1), j, l, id) ==> At(cs, j, l, id)
  {
  }
}
