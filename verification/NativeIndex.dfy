/** The sink's per-trace span index, built once every chunk has its full identity. */
module NativeIndex {
  import opened Wrappers
  import opened Spans
  import opened NativeIdentity

  datatype TraceKey = TraceKey(low: nat, high: Tag)

  datatype IndexedTrace = IndexedTrace(
    spans: seq<Span>,
    byId: map<nat, nat>,
    children: seq<seq<nat>>,
    roots: seq<nat>)

  type Traces = map<TraceKey, IndexedTrace>

  function KeyOf(c: Chunk): TraceKey {
    TraceKey(c.low, HighOrZero(c.high))
  }

  /** All spans of one trace, in arrival order. */
  ghost function TraceSpans(cs: seq<Chunk>, key: TraceKey): seq<Span> {
    if cs == [] then []
    else
      var last := cs[|cs| - 1];
      TraceSpans(cs[..|cs| - 1], key) + (if KeyOf(last) == key then last.spans else [])
  }

  // ---- What a finished trace index means ----

  ghost predicate Ascending(s: seq<nat>) {
    forall a, b :: 0 <= a < b < |s| ==> s[a] < s[b]
  }

  ghost predicate ParentOf(spans: seq<Span>, p: nat, q: nat) {
    p < |spans| && q < |spans| && spans[q].parentId == spans[p].spanId
  }

  ghost predicate IsRoot(spans: seq<Span>, q: nat) {
    q < |spans| && forall p :: 0 <= p < |spans| ==> !ParentOf(spans, p, q)
  }

  ghost predicate ExactById(spans: seq<Span>, byId: map<nat, nat>) {
    && (forall p :: 0 <= p < |spans| ==> spans[p].spanId in byId && byId[spans[p].spanId] == p)
    && (forall id :: id in byId ==> byId[id] < |spans| && spans[byId[id]].spanId == id)
  }

  /** Lists the first n positions under their parents, or among the roots. */
  ghost predicate LinkedUpTo(spans: seq<Span>, children: seq<seq<nat>>, roots: seq<nat>, n: nat) {
    && |children| == |spans| && n <= |spans|
    && (forall p, q: nat :: 0 <= p < |spans| ==> (q in children[p] <==> q < n && ParentOf(spans, p, q)))
    && (forall p :: 0 <= p < |spans| ==> Ascending(children[p]))
    && (forall q: nat :: q in roots <==> q < n && IsRoot(spans, q))
    && Ascending(roots)
  }

  ghost predicate Indexed(t: IndexedTrace) {
    && ExactById(t.spans, t.byId)
    && LinkedUpTo(t.spans, t.children, t.roots, |t.spans|)
  }

  // ---- Filling the traces ----

  ghost predicate UniqueIds(spans: seq<Span>) {
    forall p, q :: 0 <= p < q < |spans| ==> spans[p].spanId != spans[q].spanId
  }

  ghost predicate Unlinked(t: IndexedTrace) {
    && ExactById(t.spans, t.byId)
    && t.roots == [] && |t.children| == |t.spans|
    && forall p :: 0 <= p < |t.children| ==> t.children[p] == []
  }

  ghost predicate Filled(cs: seq<Chunk>, traces: Traces) {
    forall key ::
      && (key in traces <==> TraceSpans(cs, key) != [])
      && (key in traces ==> traces[key].spans == TraceSpans(cs, key) && Unlinked(traces[key]))
  }

  lemma SpanAppended(cs: seq<Chunk>, i: nat, k: nat, key: TraceKey)
    requires i < |cs| && k < |cs[i].spans|
    ensures TraceSpans(Before(cs, i, 0), key) == TraceSpans(cs[..i], key)
    ensures TraceSpans(Before(cs, i, k + 1), key) ==
            TraceSpans(Before(cs, i, k), key) + if key == KeyOf(cs[i]) then [cs[i].spans[k]] else []
    ensures TraceSpans(Before(cs, i, k + 1), key) <= TraceSpans(cs, key)
  {
    assert Before(cs, i, 0)[..i] == Before(cs, i, k)[..i] == Before(cs, i, k + 1)[..i] == cs[..i];
    assert cs[i].spans[..k + 1] == cs[i].spans[..k] + [cs[i].spans[k]];
    assert cs[..i + 1][..i] == cs[..i];
    assert TraceSpans(Before(cs, i, k + 1), key) <= TraceSpans(cs[..i + 1], key);
    TraceSpansPrefix(cs, i + 1, key);
  }

  lemma {:induction false} TraceSpansPrefix(cs: seq<Chunk>, n: nat, key: TraceKey)
    requires n <= |cs|
    ensures TraceSpans(cs[..n], key) <= TraceSpans(cs, key)
  {
    if n == |cs| {
      assert cs[..n] == cs;
    } else {
      TraceSpansPrefix(cs[..|cs| - 1], n, key);
      assert cs[..|cs| - 1][..n] == cs[..n];
    }
  }

  method AppendSpan(trace: IndexedTrace, span: Span) returns (r: Result<IndexedTrace, IndexError>)
    requires Unlinked(trace)
    ensures r.Ok? ==> r.value.spans == trace.spans + [span] && Unlinked(r.value)
    ensures r.Ok? <==> UniqueIds(trace.spans + [span])
  {
    var position := |trace.spans|;
    if span.spanId in trace.byId {
      assert (trace.spans + [span])[trace.byId[span.spanId]].spanId == (trace.spans + [span])[position].spanId;
      return Err(DuplicateSpanId);
    }
    return Ok(trace.(spans := trace.spans + [span],
                     byId := trace.byId[span.spanId := position],
                     children := trace.children + [[]]));
  }

  lemma RepeatedInPrefix(bad: seq<Span>, all: seq<Span>)
    requires bad <= all && !UniqueIds(bad)
    ensures !UniqueIds(all)
  {
    assert forall p :: 0 <= p < |bad| ==> all[p] == bad[p];
  }

  method EnterSpan(ghost cs: seq<Chunk>, i: nat, k: nat, key: TraceKey, span: Span, traces: Traces)
    returns (r: Result<Traces, IndexError>)
    requires i < |cs| && k < |cs[i].spans| && key == KeyOf(cs[i]) && span == cs[i].spans[k]
    requires Filled(Before(cs, i, k), traces)
    ensures r.Ok? ==> Filled(Before(cs, i, k + 1), r.value)
    ensures r.Err? ==> !UniqueIds(TraceSpans(cs, key))
  {
    hide TraceSpans, Before, UniqueIds;
    ghost var before, after := Before(cs, i, k), Before(cs, i, k + 1);
    forall other
      ensures TraceSpans(after, other) == TraceSpans(before, other) + if other == key then [span] else []
      ensures TraceSpans(after, other) <= TraceSpans(cs, other)
    {
      SpanAppended(cs, i, k, other);
    }
    var trace := if key in traces then traces[key] else IndexedTrace([], map[], [], []);
    assert trace.spans == TraceSpans(before, key) && Unlinked(trace);
    var grown := AppendSpan(trace, span);
    if grown.Err? {
      RepeatedInPrefix(trace.spans + [span], TraceSpans(cs, key));
      return Err(grown.error);
    }
    return Ok(traces[key := grown.value]);
  }

  /** Where the k-th span of chunk i lands in its trace. */
  lemma {:induction false} Place(cs: seq<Chunk>, i: nat, k: nat) returns (p: nat)
    requires i < |cs| && k < |cs[i].spans|
    ensures p == |TraceSpans(cs[..i], KeyOf(cs[i]))| + k < |TraceSpans(cs, KeyOf(cs[i]))|
    ensures TraceSpans(cs, KeyOf(cs[i]))[p] == cs[i].spans[k]
  {
    p := |TraceSpans(cs[..i], KeyOf(cs[i]))| + k;
    assert cs[..i + 1][..i] == cs[..i];
    TraceSpansPrefix(cs, i + 1, KeyOf(cs[i]));
  }

  lemma {:induction false} Origin(cs: seq<Chunk>, key: TraceKey, p: nat) returns (i: nat, k: nat)
    requires p < |TraceSpans(cs, key)|
    ensures i < |cs| && k < |cs[i].spans| && KeyOf(cs[i]) == key
    ensures p == |TraceSpans(cs[..i], key)| + k && cs[i].spans[k] == TraceSpans(cs, key)[p]
  {
    var init := cs[..|cs| - 1];
    if p < |TraceSpans(init, key)| {
      i, k := Origin(init, key, p);
      assert init[..i] == cs[..i];
    } else {
      i, k := |cs| - 1, p - |TraceSpans(init, key)|;
    }
  }

  // Identities are distinct exactly when span IDs are unique inside each trace.
  lemma DistinctIsUnique(cs: seq<Chunk>, key: TraceKey)
    requires DistinctIdentities(cs)
    ensures UniqueIds(TraceSpans(cs, key))
  {
    forall p, q | 0 <= p < q < |TraceSpans(cs, key)|
      ensures TraceSpans(cs, key)[p].spanId != TraceSpans(cs, key)[q].spanId
    {
      var i, k := Origin(cs, key, p);
      var j, l := Origin(cs, key, q);
      if IdentityOf(cs[i], k) == IdentityOf(cs[j], l) {
        assert At(cs, i, k, IdentityOf(cs[i], k)) && At(cs, j, l, IdentityOf(cs[i], k));
      }
    }
  }

  lemma UniqueIsDistinct(cs: seq<Chunk>)
    requires forall key :: UniqueIds(TraceSpans(cs, key))
    ensures DistinctIdentities(cs)
  {
    forall id, i: nat, k: nat, j: nat, l: nat | At(cs, i, k, id) && At(cs, j, l, id)
      ensures i == j && k == l
    {
      SamePlace(cs, i, k, j, l);
    }
  }

  lemma SamePlace(cs: seq<Chunk>, i: nat, k: nat, j: nat, l: nat)
    requires i < |cs| && k < |cs[i].spans| && j < |cs| && l < |cs[j].spans|
    requires IdentityOf(cs[i], k) == IdentityOf(cs[j], l)
    requires UniqueIds(TraceSpans(cs, KeyOf(cs[i])))
    ensures i == j && k == l
  {
    assert KeyOf(cs[i]) == KeyOf(cs[j]);
    var p := Place(cs, i, k);
    var q := Place(cs, j, l);
    assert p == q;
    if i < j {
      PlacesAscend(cs, i, j);
    } else if j < i {
      PlacesAscend(cs, j, i);
    }
  }

  lemma PlacesAscend(cs: seq<Chunk>, i: nat, j: nat)
    requires i < j < |cs| && KeyOf(cs[i]) == KeyOf(cs[j])
    ensures |TraceSpans(cs[..i], KeyOf(cs[i]))| + |cs[i].spans| <= |TraceSpans(cs[..j], KeyOf(cs[i]))|
  {
    assert cs[..i + 1][..i] == cs[..i] && cs[..j][..i + 1] == cs[..i + 1];
    TraceSpansPrefix(cs[..j], i + 1, KeyOf(cs[i]));
  }

  // ---- Parents, children and roots ----

  lemma LinkedStep(spans: seq<Span>, byId: map<nat, nat>, children: seq<seq<nat>>, roots: seq<nat>, n: nat)
    requires ExactById(spans, byId) && n < |spans| && spans[n].parentId in byId
    requires LinkedUpTo(spans, children, roots, n)
    ensures var parent := byId[spans[n].parentId];
            LinkedUpTo(spans, children[parent := children[parent] + [n]], roots, n + 1)
  {
    var parent := byId[spans[n].parentId];
    assert ParentOf(spans, parent, n) && !IsRoot(spans, n);
    var next := children[parent := children[parent] + [n]];
    forall p | 0 <= p < |spans|
      ensures Ascending(next[p])
    {
      assert forall a :: 0 <= a < |children[p]| ==> children[p][a] in children[p];
    }
  }

  method LinkTrace(t: IndexedTrace) returns (r: IndexedTrace)
    requires Unlinked(t)
    ensures r.spans == t.spans && Indexed(r)
  {
    var children: seq<seq<nat>>, roots: seq<nat> := t.children, t.roots;
    for position := 0 to |t.spans|
      invariant LinkedUpTo(t.spans, children, roots, position)
    {
      var parentId := t.spans[position].parentId;
      if parentId in t.byId {
        var parent := t.byId[parentId];
        ghost var before := children;
        children := children[parent := children[parent] + [position]];
        LinkedStep(t.spans, t.byId, before, roots, position);
      } else {
        assert IsRoot(t.spans, position);
        assert forall a :: 0 <= a < |roots| ==> roots[a] in roots;
        roots := roots + [position];
      }
    }
    r := t.(children := children, roots := roots);
  }

  // ---- The whole construction ----

  /** What the sink requires of a capture before it indexes it. */
  ghost predicate WellFormed(input: seq<seq<Span>>) {
    forall i :: 0 <= i < |input| ==> ValidChunk(input[i]) && exists high :: DeclaresTag(input[i], high)
  }

  ghost function Declared(input: seq<seq<Span>>): (cs: seq<Chunk>)
    requires WellFormed(input)
    ensures |cs| == |input|
    ensures forall i :: 0 <= i < |cs| ==> cs[i].spans == input[i] && cs[i].low == input[i][0].traceId
    ensures forall i :: 0 <= i < |cs| ==> DeclaresTag(input[i], cs[i].high)
  {
    seq(|input|, i requires 0 <= i < |input| =>
      var high :| DeclaresTag(input[i], high);
      Chunk(input[i][0].traceId, high, input[i]))
  }

  lemma DeclaredTagUnique(spans: seq<Span>, a: Option<Tag>, b: Option<Tag>)
    requires DeclaresTag(spans, a) && DeclaresTag(spans, b)
    ensures a == b
  {
    if a.Some? {
      assert a.value in ChunkTags(spans);
    }
    if b.Some? {
      assert b.value in ChunkTags(spans);
    }
  }

  /** The capture is indexed exactly when every chunk is valid, no component of
      untagged chunks touches two tags, and the resulting identities are distinct. */
  ghost predicate Accepts(input: seq<seq<Span>>) {
    && WellFormed(input)
    && Unambiguous(Declared(input))
    && DistinctIdentities(Resolve(Declared(input)))
  }

  ghost predicate IsIndexOf(cs: seq<Chunk>, traces: Traces) {
    forall key ::
      && (key in traces <==> TraceSpans(cs, key) != [])
      && (key in traces ==> traces[key].spans == TraceSpans(cs, key) && Indexed(traces[key]))
  }

  method ReadChunks(input: seq<seq<Span>>) returns (r: Result<seq<Chunk>, IndexError>)
    ensures r.Ok? <==> WellFormed(input)
    ensures r.Ok? ==> r.value == Declared(input)
  {
    var chunks: seq<Chunk> := [];
    for i := 0 to |input|
      invariant |chunks| == i
      invariant forall k :: 0 <= k < i ==> ValidChunk(input[k])
      invariant forall k :: 0 <= k < i ==> chunks[k] == Chunk(input[k][0].traceId, chunks[k].high, input[k])
      invariant forall k :: 0 <= k < i ==> DeclaresTag(input[k], chunks[k].high)
    {
      if !ValidChunk(input[i]) {
        return Err(SemanticViolation);
      }
      var high := ChunkHigh(input[i]);
      if high.Err? {
        return Err(high.error);
      }
      chunks := chunks + [Chunk(input[i][0].traceId, high.value, input[i])];
    }
    assert WellFormed(input);
    forall k | 0 <= k < |input|
      ensures chunks[k] == Declared(input)[k]
    {
      DeclaredTagUnique(input[k], chunks[k].high, Declared(input)[k].high);
    }
    return Ok(chunks);
  }

  method New(input: seq<seq<Span>>) returns (r: Result<Traces, IndexError>)
    ensures r.Ok? <==> Accepts(input)
    ensures r.Ok? ==> IsIndexOf(Resolve(Declared(input)), r.value)
  {
    var read := ReadChunks(input);
    if read.Err? {
      return Err(read.error);
    }
    var chunks := new Chunk[|read.value|](i requires 0 <= i < |read.value| => read.value[i]);
    assert chunks[..] == read.value;
    var unambiguous := InheritTags(chunks);
    if !unambiguous {
      return Err(AmbiguousIdentity);
    }
    r := BuildIndex(chunks[..]);
  }

  method FillTraces(cs: seq<Chunk>) returns (r: Result<Traces, IndexError>)
    ensures r.Ok? ==> Filled(cs, r.value)
    ensures r.Err? ==> !DistinctIdentities(cs)
  {
    var traces: Traces := map[];
    for i := 0 to |cs|
      invariant Filled(cs[..i], traces)
    {
      EmptyPrefix(cs, i);
      for k := 0 to |cs[i].spans|
        invariant Filled(Before(cs, i, k), traces)
      {
        var next := EnterSpan(cs, i, k, KeyOf(cs[i]), cs[i].spans[k], traces);
        if next.Err? {
          if DistinctIdentities(cs) {
            DistinctIsUnique(cs, KeyOf(cs[i]));
          }
          return Err(next.error);
        }
        traces := next.value;
      }
      assert cs[i].spans[..|cs[i].spans|] == cs[i].spans;
      assert Before(cs, i, |cs[i].spans|) == cs[..i + 1];
    }
    assert cs[..|cs|] == cs;
    return Ok(traces);
  }

  lemma EmptyPrefix(cs: seq<Chunk>, i: nat)
    requires i < |cs|
    ensures forall key :: TraceSpans(Before(cs, i, 0), key) == TraceSpans(cs[..i], key)
  {
    assert Before(cs, i, 0)[..i] == cs[..i];
  }

  method BuildIndex(cs: seq<Chunk>) returns (r: Result<Traces, IndexError>)
    ensures r.Ok? <==> DistinctIdentities(cs)
    ensures r.Ok? ==> IsIndexOf(cs, r.value)
  {
    hide TraceSpans, DistinctIdentities, UniqueIds, Indexed, Unlinked;
    r := FillTraces(cs);
    if r.Err? {
      return;
    }
    var filled := r.value;
    assert forall key :: key in filled ==> Unlinked(filled[key]);
    FilledIsUnique(cs, filled);
    UniqueIsDistinct(cs);
    var todo, traces := filled.Keys, filled;
    while todo != {}
      invariant todo <= traces.Keys == filled.Keys
      invariant forall key :: key in todo ==> traces[key] == filled[key]
      invariant forall key :: key in traces.Keys - todo ==>
                Indexed(traces[key]) && traces[key].spans == filled[key].spans
    {
      var key :| key in todo;
      var linked := LinkTrace(traces[key]);
      traces := traces[key := linked];
      todo := todo - {key};
    }
    r := Ok(traces);
  }

  lemma FilledIsUnique(cs: seq<Chunk>, traces: Traces)
    requires Filled(cs, traces)
    ensures forall key :: UniqueIds(TraceSpans(cs, key))
  {
    forall key
      ensures UniqueIds(TraceSpans(cs, key))
    {
      if key in traces {
        assert ExactById(traces[key].spans, traces[key].byId);
      }
    }
  }
}
