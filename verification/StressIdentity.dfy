/** The stress checker's own inference of span identities, by union-find over chunks. */
module StressIdentity {
  import opened Basics
  import opened Wrappers
  import opened Spans

  datatype StressError = InvalidSpan | MalformedTag | ConflictingChunk | AmbiguousChunk | DuplicateIdentity

  // ---- Disjoint components with path halving ----

  /** Element i of the parent array: `roots` holds the representative of its
      component, and `rank` strictly grows along the parent edge, so there is no
      cycle but the self-loops of representatives. */
  ghost predicate Edge(parents: seq<nat>, roots: seq<nat>, rank: seq<nat>, bound: nat, i: nat)
    requires i < |parents| == |roots| == |rank|
  {
    && parents[i] < |parents| && roots[i] < |parents|
    && rank[i] <= bound
    && (parents[i] == i || rank[i] < rank[parents[i]])
    && roots[parents[i]] == roots[i]
    && (parents[i] == i ==> roots[i] == i)
    && parents[roots[i]] == roots[i]
  }

  ghost predicate IsForest(parents: seq<nat>, roots: seq<nat>, rank: seq<nat>, bound: nat) {
    |roots| == |rank| == |parents| && forall i: nat :: i < |parents| ==> Edge(parents, roots, rank, bound, i)
  }

  ghost function Merged(roots: seq<nat>, a: nat, b: nat): (r: seq<nat>)
    requires a < |roots| && b < |roots|
    ensures |r| == |roots|
  {
    seq(|roots|, k requires 0 <= k < |roots| => if roots[k] == roots[a] then roots[b] else roots[k])
  }

  /** Path halving skips one parent without leaving the component. */
  lemma HalvingKeepsForest(parents: seq<nat>, roots: seq<nat>, rank: seq<nat>, bound: nat, i: nat)
    requires IsForest(parents, roots, rank, bound) && i < |parents| && parents[i] != i
    ensures parents[i] < |parents| && parents[parents[i]] < |parents|
    ensures IsForest(parents[i := parents[parents[i]]], roots, rank, bound)
    ensures rank[i] < rank[parents[parents[i]]] <= bound
    ensures roots[i] == roots[parents[parents[i]]]
  {
    assert Edge(parents, roots, rank, bound, i);
    assert Edge(parents, roots, rank, bound, parents[i]);
    assert Edge(parents, roots, rank, bound, parents[parents[i]]);
    var next := parents[i := parents[parents[i]]];
    forall k: nat | k < |next|
      ensures Edge(next, roots, rank, bound, k)
    {
      assert Edge(parents, roots, rank, bound, k);
    }
  }

  lemma LinkingKeepsForest(parents: seq<nat>, roots: seq<nat>, rank: seq<nat>, bound: nat, a: nat, b: nat)
    returns (rank': seq<nat>, bound': nat)
    requires IsForest(parents, roots, rank, bound) && a < |parents| && b < |parents|
    ensures roots[a] < |parents|
    ensures IsForest(parents[roots[a] := roots[b]], Merged(roots, a, b), rank', bound')
  {
    assert Edge(parents, roots, rank, bound, a) && Edge(parents, roots, rank, bound, b);
    var ra, rb := roots[a], roots[b];
    assert Edge(parents, roots, rank, bound, ra) && Edge(parents, roots, rank, bound, rb);
    rank', bound' := rank, bound;
    if ra != rb {
      rank', bound' := rank[rb := rank[rb] + rank[ra] + 1], bound + bound + 1;
    }
    var next, roots' := parents[ra := rb], Merged(roots, a, b);
    forall k: nat | k < |next|
      ensures Edge(next, roots', rank', bound', k)
    {
      assert Edge(parents, roots, rank, bound, k);
    }
  }

  /** The `components` array with its two closures. */
  class Components {
    const parent: array<nat>
    ghost var roots: seq<nat>
    ghost var rank: seq<nat>
    ghost var bound: nat

    ghost predicate Valid()
      reads this, parent
    {
      IsForest(parent[..], roots, rank, bound)
    }

    constructor (n: nat)
      ensures Valid() && fresh(parent) && parent.Length == n
      ensures roots == seq(n, i => i)
    {
      parent := new nat[n](i => i);
      roots := seq(n, i => i);
      rank := seq(n, i => 0);
      bound := 0;
    }

    method Find(start: nat) returns (i: nat)
      requires Valid() && start < parent.Length
      modifies parent
      ensures Valid() && start < |roots| && i == roots[start]
    {
      i := start;
      while parent[i] != i
        invariant i < parent.Length && Valid() && roots[i] == roots[start]
        decreases bound - rank[i]
      {
        HalvingKeepsForest(parent[..], roots, rank, bound, i);
        ghost var halved := parent[..][i := parent[parent[i]]];
        parent[i] := parent[parent[i]];
        assert parent[..] == halved;
        i := parent[i];
      }
      assert Edge(parent[..], roots, rank, bound, i);
    }

    /** Every element of a's component moves to b's representative; others keep theirs. */
    method Join(a: nat, b: nat)
      requires Valid() && a < parent.Length && b < parent.Length
      modifies this, parent
      ensures Valid() && roots == Merged(old(roots), a, b)
    {
      var ra := Find(a);
      var rb := Find(b);
      rank, bound := LinkingKeepsForest(parent[..], roots, rank, bound, a, b);
      ghost var linked := parent[..][ra := rb];
      parent[ra] := rb;
      assert parent[..] == linked;
      roots := Merged(roots, a, b);
    }
  }

  // ---- Reading one chunk ----

  predicate HasTag(s: Span) {
    s.tid.Some? && s.tid.value != ""
  }

  ghost predicate StressValidSpan(s: Span) {
    s.traceId > 0 && s.spanId > 0 && s.start > 0 && s.duration > 0 && (HasTag(s) ==> ValidTid(s.tid.value))
  }

  ghost function StressTags(spans: seq<Span>): set<Tag> {
    set s | s in spans && HasTag(s) :: Lower(s.tid.value)
  }

  ghost predicate StressDeclares(spans: seq<Span>, high: Option<Tag>) {
    StressTags(spans) == if high.Some? then {high.value} else {}
  }

  ghost predicate StressChunk(spans: seq<Span>) {
    && (forall i :: 0 <= i < |spans| ==> StressValidSpan(spans[i]))
    && SameTrace(spans)
    && exists high :: StressDeclares(spans, high)
  }

  ghost predicate StressWellFormed(input: seq<seq<Span>>) {
    forall i :: 0 <= i < |input| ==> StressChunk(input[i])
  }

  ghost function StressLow(spans: seq<Span>): nat {
    if spans == [] then 0 else spans[0].traceId
  }

  ghost function StressDeclared(input: seq<seq<Span>>): (cs: seq<Chunk>)
    requires StressWellFormed(input)
    ensures |cs| == |input|
    ensures forall i :: 0 <= i < |cs| ==> cs[i].spans == input[i] && cs[i].low == StressLow(input[i])
    ensures forall i :: 0 <= i < |cs| ==> StressDeclares(input[i], cs[i].high)
  {
    seq(|input|, i requires 0 <= i < |input| =>
      var high :| StressDeclares(input[i], high);
      Chunk(StressLow(input[i]), high, input[i]))
  }

  lemma StressTagUnique(spans: seq<Span>, a: Option<Tag>, b: Option<Tag>)
    requires StressDeclares(spans, a) && StressDeclares(spans, b)
    ensures a == b
  {
    assert a.Some? ==> a.value in StressTags(spans);
    assert b.Some? ==> b.value in StressTags(spans);
  }

  method ReadChunk(spans: seq<Span>) returns (r: Result<Chunk, StressError>)
    ensures r.Ok? <==> StressChunk(spans)
    ensures r.Ok? ==> r.value.low == StressLow(spans) && r.value.spans == spans && StressDeclares(spans, r.value.high)
  {
    var high: Option<Tag> := None;
    for i := 0 to |spans|
      invariant forall k :: 0 <= k < i ==> StressValidSpan(spans[k]) && spans[k].traceId == spans[0].traceId
      invariant StressDeclares(spans[..i], high)
    {
      var span := spans[i];
      assert spans[..i + 1] == spans[..i] + [span];
      assert StressTags(spans[..i + 1]) ==
             StressTags(spans[..i]) + (if HasTag(span) then {Lower(span.tid.value)} else {});
      if span.traceId == 0 || span.spanId == 0 || span.start <= 0 || span.duration <= 0 {
        return Err(InvalidSpan);
      }
      if span.traceId != spans[0].traceId {
        return Err(ConflictingChunk);
      }
      if HasTag(span) {
        if !ValidTid(span.tid.value) {
          return Err(MalformedTag);
        }
        var value := Lower(span.tid.value);
        if high.Some? && high.value != value {
          StressTagsConflict(spans, high.value, value);
          return Err(ConflictingChunk);
        }
        high := Some(value);
      }
    }
    assert spans[..|spans|] == spans;
    return Ok(Chunk(if spans == [] then 0 else spans[0].traceId, high, spans));
  }

  lemma StressTagsConflict(spans: seq<Span>, s: Tag, t: Tag)
    requires s in StressTags(spans) && t in StressTags(spans) && s != t
    ensures !exists high :: StressDeclares(spans, high)
  {
  }

  method ReadChunks(input: seq<seq<Span>>) returns (r: Result<seq<Chunk>, StressError>)
    ensures r.Ok? <==> StressWellFormed(input)
    ensures r.Ok? ==> r.value == StressDeclared(input)
  {
    var chunks: seq<Chunk> := [];
    for i := 0 to |input|
      invariant |chunks| == i
      invariant forall k :: 0 <= k < i ==> StressChunk(input[k])
      invariant forall k :: 0 <= k < i ==> chunks[k] == Chunk(StressLow(input[k]), chunks[k].high, input[k])
      invariant forall k :: 0 <= k < i ==> StressDeclares(input[k], chunks[k].high)
    {
      var chunk := ReadChunk(input[i]);
      if chunk.Err? {
        return Err(chunk.error);
      }
      chunks := chunks + [chunk.value];
    }
    assert StressWellFormed(input);
    forall k | 0 <= k < |input|
      ensures chunks[k] == StressDeclared(input)[k]
    {
      StressTagUnique(input[k], chunks[k].high, StressDeclared(input)[k].high);
    }
    return Ok(chunks);
  }

  // ---- Components of chunks ----

  /** Chunks with equal low bits that hold a common span ID or a parent link. */
  ghost predicate Related(cs: seq<Chunk>, i: nat, j: nat) {
    && i < |cs| && j < |cs|
    && cs[i].low == cs[j].low
    && (SpansShared(cs[i].spans, cs[j].spans) || SpansLinked(cs[i].spans, cs[j].spans))
  }

  ghost predicate Walk(cs: seq<Chunk>, p: seq<nat>) {
    && |p| >= 1
    && (forall k :: 0 <= k < |p| ==> p[k] < |cs|)
    && (forall k :: 0 <= k < |p| - 1 ==> Related(cs, p[k], p[k + 1]))
  }

  /** The reflexive and transitive closure of Related. */
  ghost predicate Connected(cs: seq<Chunk>, i: nat, j: nat) {
    exists p :: Walk(cs, p) && p[0] == i && p[|p| - 1] == j
  }

  lemma ConnectedRefl(cs: seq<Chunk>, i: nat)
    requires i < |cs|
    ensures Connected(cs, i, i)
  {
    assert Walk(cs, [i]);
  }

  lemma ConnectedStep(cs: seq<Chunk>, i: nat, j: nat)
    requires Related(cs, i, j)
    ensures Connected(cs, i, j)
  {
    var p := [i, j];
    assert Walk(cs, p) && p[0] == i && p[|p| - 1] == j;
  }

  lemma ConnectedTrans(cs: seq<Chunk>, i: nat, j: nat, k: nat)
    requires Connected(cs, i, j) && Connected(cs, j, k)
    ensures Connected(cs, i, k)
  {
    var p :| Walk(cs, p) && p[0] == i && p[|p| - 1] == j;
    var q :| Walk(cs, q) && q[0] == j && q[|q| - 1] == k;
    var r := p + q[1..];
    forall m | 0 <= m < |r| - 1
      ensures Related(cs, r[m], r[m + 1])
    {
      if m < |p| - 1 {
        assert Related(cs, p[m], p[m + 1]);
      } else {
        assert Related(cs, q[m - |p| + 1], q[m - |p| + 2]);
      }
    }
    assert Walk(cs, r) && r[|r| - 1] == k;
  }

  lemma RelatedSymmetric(cs: seq<Chunk>, i: nat, j: nat)
    requires Related(cs, i, j)
    ensures Related(cs, j, i)
  {
  }

  lemma ConnectedSymmetric(cs: seq<Chunk>, i: nat, j: nat)
    requires Connected(cs, i, j)
    ensures Connected(cs, j, i)
  {
    var p :| Walk(cs, p) && p[0] == i && p[|p| - 1] == j;
    var q := seq(|p|, m requires 0 <= m < |p| => p[|p| - 1 - m]);
    forall m | 0 <= m < |q| - 1
      ensures Related(cs, q[m], q[m + 1])
    {
      RelatedSymmetric(cs, p[|p| - 2 - m], p[|p| - 2 - m + 1]);
    }
    assert Walk(cs, q);
  }

  // Only connected chunks have been joined.
  ghost predicate Sound(cs: seq<Chunk>, roots: seq<nat>) {
    |roots| == |cs| && forall i, j {:trigger Connected(cs, i, j)} ::
      0 <= i < |cs| && 0 <= j < |cs| && roots[i] == roots[j] ==> Connected(cs, i, j)
  }

  lemma MergeSound(cs: seq<Chunk>, roots: seq<nat>, a: nat, b: nat)
    requires Sound(cs, roots) && a < |cs| && b < |cs| && Connected(cs, a, b)
    ensures Sound(cs, Merged(roots, a, b))
  {
    var next := Merged(roots, a, b);
    forall i, j | 0 <= i < |cs| && 0 <= j < |cs| && next[i] == next[j]
      ensures Connected(cs, i, j)
    {
      assert roots[i] == roots[a] ==> Connected(cs, i, a);
      assert roots[i] == roots[b] ==> Connected(cs, i, b);
      assert roots[j] == roots[a] ==> Connected(cs, a, j);
      assert roots[j] == roots[b] ==> Connected(cs, b, j);
      if roots[i] != roots[j] {
        if roots[i] == roots[a] {
          ConnectedTrans(cs, i, a, b);
          ConnectedTrans(cs, i, b, j);
        } else {
          ConnectedSymmetric(cs, a, b);
          ConnectedTrans(cs, i, b, a);
          ConnectedTrans(cs, i, a, j);
        }
      }
    }
  }

  /** Later joins never separate what earlier ones put together. */
  ghost predicate Coarsens(before: seq<nat>, after: seq<nat>) {
    |after| == |before| && forall i, j {:trigger before[i], before[j]} ::
      0 <= i < |before| && 0 <= j < |before| && before[i] == before[j] ==> after[i] == after[j]
  }

  type SpanKey = (nat, nat)

  // Every entry names a chunk that holds the span.
  ghost predicate KeyedSound(cs: seq<Chunk>, bySpan: map<SpanKey, nat>) {
    forall key :: key in bySpan ==>
      bySpan[key] < |cs| && cs[bySpan[key]].low == key.0 &&
      exists s :: s in cs[bySpan[key]].spans && s.spanId == key.1
  }

  // The first k spans of chunk i are indexed and in the component of their entry.
  ghost predicate KeyedChunk(c: Chunk, i: nat, k: nat, bySpan: map<SpanKey, nat>, roots: seq<nat>)
    requires k <= |c.spans|
  {
    i < |roots| && forall m :: 0 <= m < k ==>
      && (c.low, c.spans[m].spanId) in bySpan
      && bySpan[(c.low, c.spans[m].spanId)] < |roots|
      && roots[bySpan[(c.low, c.spans[m].spanId)]] == roots[i]
  }

  ghost predicate Keyed(cs: seq<Chunk>, n: nat, bySpan: map<SpanKey, nat>, roots: seq<nat>)
    requires n <= |cs|
  {
    forall i: nat {:trigger KeyedChunk(cs[i], i, |cs[i].spans|, bySpan, roots)} ::
      i < n ==> KeyedChunk(cs[i], i, |cs[i].spans|, bySpan, roots)
  }

  // Parents of the first k spans of chunk i, where captured, are in its component.
  ghost predicate ParentedChunk(c: Chunk, i: nat, k: nat, bySpan: map<SpanKey, nat>, roots: seq<nat>)
    requires k <= |c.spans|
  {
    i < |roots| && forall m :: 0 <= m < k && (c.low, c.spans[m].parentId) in bySpan ==>
      && bySpan[(c.low, c.spans[m].parentId)] < |roots|
      && roots[bySpan[(c.low, c.spans[m].parentId)]] == roots[i]
  }

  ghost predicate Parented(cs: seq<Chunk>, n: nat, bySpan: map<SpanKey, nat>, roots: seq<nat>)
    requires n <= |cs|
  {
    forall i: nat {:trigger ParentedChunk(cs[i], i, |cs[i].spans|, bySpan, roots)} ::
      i < n ==> ParentedChunk(cs[i], i, |cs[i].spans|, bySpan, roots)
  }

  // All spans of a chunk share its low bits.
  ghost predicate Uniform(cs: seq<Chunk>) {
    forall i, k :: 0 <= i < |cs| && 0 <= k < |cs[i].spans| ==> cs[i].spans[k].traceId == cs[i].low
  }

  lemma CoarserKeepsKeyed(cs: seq<Chunk>, n: nat, bySpan: map<SpanKey, nat>, before: seq<nat>, after: seq<nat>)
    requires n <= |cs| && Coarsens(before, after) && Keyed(cs, n, bySpan, before)
    ensures Keyed(cs, n, bySpan, after)
  {
    forall i | 0 <= i < n
      ensures KeyedChunk(cs[i], i, |cs[i].spans|, bySpan, after)
    {
      assert KeyedChunk(cs[i], i, |cs[i].spans|, bySpan, before);
    }
  }

  lemma CoarserKeepsParented(cs: seq<Chunk>, n: nat, bySpan: map<SpanKey, nat>, before: seq<nat>, after: seq<nat>)
    requires n <= |cs| && Coarsens(before, after) && Parented(cs, n, bySpan, before)
    ensures Parented(cs, n, bySpan, after)
  {
    forall i | 0 <= i < n
      ensures ParentedChunk(cs[i], i, |cs[i].spans|, bySpan, after)
    {
      assert ParentedChunk(cs[i], i, |cs[i].spans|, bySpan, before);
    }
  }

  lemma NewKeyKeepsKeyed(cs: seq<Chunk>, n: nat, bySpan: map<SpanKey, nat>, roots: seq<nat>, key: SpanKey, i: nat)
    requires n <= |cs| && Keyed(cs, n, bySpan, roots) && key !in bySpan
    ensures Keyed(cs, n, bySpan[key := i], roots)
  {
    forall j | 0 <= j < n
      ensures KeyedChunk(cs[j], j, |cs[j].spans|, bySpan[key := i], roots)
    {
      assert KeyedChunk(cs[j], j, |cs[j].spans|, bySpan, roots);
    }
  }

  lemma CoarsensTrans(a: seq<nat>, b: seq<nat>, c: seq<nat>)
    requires Coarsens(a, b) && Coarsens(b, c)
    ensures Coarsens(a, c)
  {
  }

  method IndexChunk(cs: seq<Chunk>, i: nat, components: Components, bySpan: map<SpanKey, nat>)
    returns (next: map<SpanKey, nat>)
    requires i < |cs| && Uniform(cs) && components.Valid() && Sound(cs, components.roots)
    requires KeyedSound(cs, bySpan) && Keyed(cs, i, bySpan, components.roots)
    modifies components, components.parent
    ensures components.Valid() && Sound(cs, components.roots)
    ensures KeyedSound(cs, next) && Keyed(cs, i + 1, next, components.roots)
  {
    next := bySpan;
    for k := 0 to |cs[i].spans|
      invariant components.Valid() && Sound(cs, components.roots)
      invariant KeyedSound(cs, next) && Keyed(cs, i, next, components.roots)
      invariant KeyedChunk(cs[i], i, k, next, components.roots)
    {
      var span := cs[i].spans[k];
      var key := (span.traceId, span.spanId);
      if key in next {
        ghost var before := components.roots;
        assert SpansShared(cs[i].spans, cs[next[key]].spans);
        ConnectedStep(cs, i, next[key]);
        MergeSound(cs, before, i, next[key]);
        components.Join(i, next[key]);
        CoarserKeepsKeyed(cs, i, next, before, components.roots);
      } else {
        NewKeyKeepsKeyed(cs, i, next, components.roots, key, i);
        next := next[key := i];
      }
    }
  }

  method JoinChunkParents(cs: seq<Chunk>, i: nat, components: Components, bySpan: map<SpanKey, nat>)
    requires i < |cs| && Uniform(cs) && components.Valid() && Sound(cs, components.roots) && KeyedSound(cs, bySpan)
    modifies components, components.parent
    ensures components.Valid() && Sound(cs, components.roots) && Coarsens(old(components.roots), components.roots)
    ensures ParentedChunk(cs[i], i, |cs[i].spans|, bySpan, components.roots)
  {
    for k := 0 to |cs[i].spans|
      invariant components.Valid() && Sound(cs, components.roots) && Coarsens(old(components.roots), components.roots)
      invariant ParentedChunk(cs[i], i, k, bySpan, components.roots)
    {
      var span := cs[i].spans[k];
      var key := (span.traceId, span.parentId);
      if key in bySpan {
        ghost var before := components.roots;
        assert SpansLinked(cs[i].spans, cs[bySpan[key]].spans);
        ConnectedStep(cs, i, bySpan[key]);
        MergeSound(cs, before, i, bySpan[key]);
        components.Join(i, bySpan[key]);
        CoarsensTrans(old(components.roots), before, components.roots);
      }
    }
  }

  lemma RelatedSameRoot(cs: seq<Chunk>, bySpan: map<SpanKey, nat>, roots: seq<nat>, i: nat, j: nat)
    requires |roots| == |cs| && Related(cs, i, j)
    requires Keyed(cs, |cs|, bySpan, roots) && Parented(cs, |cs|, bySpan, roots)
    ensures roots[i] == roots[j]
  {
    assert KeyedChunk(cs[i], i, |cs[i].spans|, bySpan, roots) && KeyedChunk(cs[j], j, |cs[j].spans|, bySpan, roots);
    assert ParentedChunk(cs[i], i, |cs[i].spans|, bySpan, roots) &&
           ParentedChunk(cs[j], j, |cs[j].spans|, bySpan, roots);
    var xs, ys := cs[i].spans, cs[j].spans;
    if SpansShared(xs, ys) {
      var a, b :| a in xs && b in ys && a.spanId == b.spanId;
      var k :| 0 <= k < |xs| && xs[k] == a;
      var l :| 0 <= l < |ys| && ys[l] == b;
    } else {
      var a, b :| a in xs && b in ys && (a.parentId == b.spanId || b.parentId == a.spanId);
      var k :| 0 <= k < |xs| && xs[k] == a;
      var l :| 0 <= l < |ys| && ys[l] == b;
    }
  }

  lemma {:induction false} WalkSameRoot(cs: seq<Chunk>, bySpan: map<SpanKey, nat>, roots: seq<nat>, p: seq<nat>)
    requires |roots| == |cs| && Walk(cs, p)
    requires Keyed(cs, |cs|, bySpan, roots) && Parented(cs, |cs|, bySpan, roots)
    ensures roots[p[0]] == roots[p[|p| - 1]]
    decreases |p|
  {
    if |p| > 1 {
      assert Related(cs, p[0], p[1]);
      RelatedSameRoot(cs, bySpan, roots, p[0], p[1]);
      var q := p[1..];
      forall k | 0 <= k < |q| - 1
        ensures Related(cs, q[k], q[k + 1])
      {
        assert Related(cs, p[k + 1], p[k + 1 + 1]);
      }
      WalkSameRoot(cs, bySpan, roots, q);
    }
  }

  /** Two chunks share a representative exactly when they are connected, although
      only the first chunk of each span ID was indexed. */
  ghost predicate RootsAreComponents(cs: seq<Chunk>, roots: seq<nat>) {
    |roots| == |cs| && forall i, j {:trigger Connected(cs, i, j)} ::
      0 <= i < |cs| && 0 <= j < |cs| ==> (roots[i] == roots[j] <==> Connected(cs, i, j))
  }

  lemma ComponentsExact(cs: seq<Chunk>, bySpan: map<SpanKey, nat>, roots: seq<nat>)
    requires Sound(cs, roots)
    requires Keyed(cs, |cs|, bySpan, roots) && Parented(cs, |cs|, bySpan, roots)
    ensures RootsAreComponents(cs, roots)
  {
    forall i, j | 0 <= i < |cs| && 0 <= j < |cs| && Connected(cs, i, j)
      ensures roots[i] == roots[j]
    {
      var p :| Walk(cs, p) && p[0] == i && p[|p| - 1] == j;
      WalkSameRoot(cs, bySpan, roots, p);
    }
  }

  method JoinChunks(cs: seq<Chunk>) returns (components: Components)
    requires Uniform(cs)
    ensures fresh(components) && fresh(components.parent) && components.Valid()
    ensures RootsAreComponents(cs, components.roots)
  {
    components := new Components(|cs|);
    forall i | 0 <= i < |cs|
      ensures Connected(cs, i, i)
    {
      ConnectedRefl(cs, i);
    }
    var bySpan: map<SpanKey, nat> := map[];
    for i := 0 to |cs|
      invariant components.Valid() && Sound(cs, components.roots)
      invariant KeyedSound(cs, bySpan) && Keyed(cs, i, bySpan, components.roots)
    {
      bySpan := IndexChunk(cs, i, components, bySpan);
    }
    for i := 0 to |cs|
      invariant components.Valid() && Sound(cs, components.roots)
      invariant Keyed(cs, |cs|, bySpan, components.roots) && Parented(cs, i, bySpan, components.roots)
    {
      ghost var before := components.roots;
      JoinChunkParents(cs, i, components, bySpan);
      CoarserKeepsKeyed(cs, |cs|, bySpan, before, components.roots);
      CoarserKeepsParented(cs, i, bySpan, before, components.roots);
    }
    ComponentsExact(cs, bySpan, components.roots);
  }

  // ---- Tags by component ----

  /** Tags declared anywhere in the component of chunk i. */
  ghost function ComponentTags(cs: seq<Chunk>, i: nat): set<Tag> {
    set j | 0 <= j < |cs| && cs[j].high.Some? && Connected(cs, i, j) :: cs[j].high.value
  }

  ghost predicate OneTag(cs: seq<Chunk>, i: nat) {
    forall s, t :: s in ComponentTags(cs, i) && t in ComponentTags(cs, i) ==> s == t
  }

  ghost predicate StressUnambiguous(cs: seq<Chunk>) {
    forall i: nat {:trigger OneTag(cs, i)} :: i < |cs| && cs[i].high.None? ==> OneTag(cs, i)
  }

  ghost function StressHigh(cs: seq<Chunk>, i: nat): Option<Tag>
    requires i < |cs|
  {
    if cs[i].high.Some? then cs[i].high
    else if ComponentTags(cs, i) == {} then None
    else var t :| t in ComponentTags(cs, i); Some(t)
  }

  ghost function StressResolve(cs: seq<Chunk>): (r: seq<Chunk>)
    ensures |r| == |cs|
  {
    seq(|cs|, i requires 0 <= i < |cs| => cs[i].(high := StressHigh(cs, i)))
  }

  /** The capture is accepted exactly when every chunk is well formed, no untagged
      chunk lies in a component with two tags, and the identities are distinct. */
  ghost predicate StressAccepts(input: seq<seq<Span>>) {
    && StressWellFormed(input)
    && StressUnambiguous(StressDeclared(input))
    && DistinctIdentities(StressResolve(StressDeclared(input)))
  }

  // Tags per representative.
  ghost predicate HighsUpTo(cs: seq<Chunk>, roots: seq<nat>, highs: map<nat, set<Tag>>, n: nat)
    requires |roots| == |cs| && n <= |cs|
  {
    && (forall r :: r in highs ==> forall t :: t in highs[r] <==>
          exists j :: 0 <= j < n && roots[j] == r && cs[j].high == Some(t))
    && (forall j :: 0 <= j < n && cs[j].high.Some? ==> roots[j] in highs)
  }

  method CollectHighs(cs: seq<Chunk>, components: Components) returns (highs: map<nat, set<Tag>>)
    requires components.Valid() && |components.roots| == |cs|
    modifies components.parent
    ensures components.Valid()
    ensures HighsUpTo(cs, components.roots, highs, |cs|)
  {
    highs := map[];
    for i := 0 to |cs|
      invariant components.Valid() && HighsUpTo(cs, components.roots, highs, i)
    {
      if cs[i].high.Some? {
        var component := components.Find(i);
        ghost var before := highs;
        highs := highs[component := (if component in highs then highs[component] else {}) + {cs[i].high.value}];
        HighsStep(cs, components.roots, before, i);
      }
    }
  }

  lemma HighsStep(cs: seq<Chunk>, roots: seq<nat>, highs: map<nat, set<Tag>>, i: nat)
    requires |roots| == |cs| && i < |cs| && cs[i].high.Some? && HighsUpTo(cs, roots, highs, i)
    ensures HighsUpTo(cs, roots,
                      highs[roots[i] := (if roots[i] in highs then highs[roots[i]] else {}) + {cs[i].high.value}],
                        i + 1)
  {
    var c := roots[i];
    var next := highs[c := (if c in highs then highs[c] else {}) + {cs[i].high.value}];
    forall r, t | r in next
      ensures t in next[r] <==> exists j :: 0 <= j < i + 1 && roots[j] == r && cs[j].high == Some(t)
    {
      if t in next[r] {
        if r == c && t == cs[i].high.value {
          assert roots[i] == r && cs[i].high == Some(t);
        } else {
          assert t in highs[r];
        }
      }
    }
  }

  lemma HighsAreComponentTags(cs: seq<Chunk>, roots: seq<nat>, highs: map<nat, set<Tag>>, i: nat)
    requires RootsAreComponents(cs, roots) && HighsUpTo(cs, roots, highs, |cs|) && i < |cs|
    ensures (if roots[i] in highs then highs[roots[i]] else {}) == ComponentTags(cs, i)
  {
    var found := if roots[i] in highs then highs[roots[i]] else {};
    forall t
      ensures t in found <==> t in ComponentTags(cs, i)
    {
      if t in found {
        var j :| 0 <= j < |cs| && roots[j] == roots[i] && cs[j].high == Some(t);
        assert Connected(cs, i, j);
      }
      if t in ComponentTags(cs, i) {
        var j :| 0 <= j < |cs| && cs[j].high.Some? && Connected(cs, i, j) && cs[j].high.value == t;
        assert roots[j] == roots[i];
      }
    }
  }

  // ---- The resulting identities ----

  /** The map holds exactly the captured identities, each with its only span. */
  ghost predicate Recorded(cs: seq<Chunk>, spans: map<Identity, Span>) {
    && DistinctIdentities(cs)
    && (forall id :: id in spans ==> exists i: nat, k: nat :: At(cs, i, k, id))
    && (forall id, i: nat, k: nat :: At(cs, i, k, id) ==> id in spans && spans[id] == cs[i].spans[k])
  }

  lemma SeveralTags(tags: set<Tag>)
    requires |tags| > 1
    ensures exists s, t :: s in tags && t in tags && s != t
  {
    var s :| s in tags;
    assert |tags - {s}| > 0;
    var t :| t in tags - {s};
  }

  lemma AtMostOneTag(tags: set<Tag>)
    requires |tags| <= 1
    ensures forall s, t :: s in tags && t in tags ==> s == t
  {
    forall s, t | s in tags && t in tags
      ensures s == t
    {
      assert |tags - {s}| == |tags| - 1;
      assert s != t ==> t in tags - {s};
    }
  }

  method ResolveChunk(cs: seq<Chunk>, components: Components, highs: map<nat, set<Tag>>, i: nat)
    returns (r: Result<Chunk, StressError>)
    requires components.Valid() && |components.roots| == |cs| && i < |cs|
    requires RootsAreComponents(cs, components.roots) && HighsUpTo(cs, components.roots, highs, |cs|)
    modifies components.parent
    ensures components.Valid()
    ensures r.Ok? ==> r.value == StressResolve(cs)[i]
    ensures r.Ok? && cs[i].high.None? ==> OneTag(cs, i)
    ensures r.Err? ==> !StressUnambiguous(cs)
  {
    if cs[i].high.Some? {
      return Ok(cs[i]);
    }
    var component := components.Find(i);
    HighsAreComponentTags(cs, components.roots, highs, i);
    var candidates := if component in highs then highs[component] else {};
    if |candidates| > 1 {
      SeveralTags(candidates);
      assert !OneTag(cs, i);
      return Err(AmbiguousChunk);
    }
    var high: Option<Tag> := None;
    var rest := candidates;
    while rest != {}
      invariant rest <= candidates && (rest == {} && candidates != {} ==> high.Some? && high.value in candidates)
      invariant high.Some? ==> high.value in candidates
    {
      var h :| h in rest;
      high, rest := Some(h), rest - {h};
    }
    AtMostOneTag(candidates);
    return Ok(cs[i].(high := high));
  }

  lemma RecordSpan(cs: seq<Chunk>, i: nat, k: nat, spans: map<Identity, Span>)
    requires i < |cs| && k < |cs[i].spans| && Recorded(Before(cs, i, k), spans)
    ensures IdentityOf(cs[i], k) in spans ==> !DistinctIdentities(cs)
    ensures IdentityOf(cs[i], k) !in spans ==>
              Recorded(Before(cs, i, k + 1), spans[IdentityOf(cs[i], k) := cs[i].spans[k]])
  {
    var key := IdentityOf(cs[i], k);
    var before, after := Before(cs, i, k), Before(cs, i, k + 1);
    forall id, j: nat, l: nat
      ensures At(after, j, l, id) <==> At(before, j, l, id) || (j == i && l == k && id == key)
      ensures At(after, j, l, id) ==> At(cs, j, l, id)
    {
      AtNext(cs, i, k, j, l, id);
    }
    assert At(after, i, k, key);
    if key in spans {
      var j, l :| At(before, j, l, key);
      assert At(after, j, l, key);
      assert At(cs, j, l, key) && At(cs, i, k, key);
    } else {
      var next := spans[key := cs[i].spans[k]];
      forall id | id in next
        ensures exists j, l :: At(after, j, l, id)
      {
        if id != key {
          var j, l :| At(before, j, l, id);
          assert At(after, j, l, id);
        }
      }
    }
  }

  method RecordChunk(ghost cs: seq<Chunk>, i: nat, c: Chunk, spans: map<Identity, Span>)
    returns (r: Result<map<Identity, Span>, StressError>)
    requires i < |cs| && c == cs[i] && Recorded(cs[..i], spans)
    ensures r.Ok? ==> Recorded(cs[..i + 1], r.value)
    ensures r.Err? ==> !DistinctIdentities(cs)
  {
    var result := spans;
    RecordedStart(cs, i, spans);
    for k := 0 to |c.spans|
      invariant Recorded(Before(cs, i, k), result)
    {
      var key := IdentityOf(c, k);
      RecordSpan(cs, i, k, result);
      if key in result {
        return Err(DuplicateIdentity);
      }
      result := result[key := c.spans[k]];
    }
    assert c.spans[..|c.spans|] == c.spans;
    assert Before(cs, i, |c.spans|) == cs[..i + 1];
    return Ok(result);
  }

  lemma RecordedStart(cs: seq<Chunk>, i: nat, spans: map<Identity, Span>)
    requires i < |cs| && Recorded(cs[..i], spans)
    ensures Recorded(Before(cs, i, 0), spans)
  {
    forall id, j: nat, l: nat
      ensures At(Before(cs, i, 0), j, l, id) <==> At(cs[..i], j, l, id)
    {
    }
  }

  lemma NothingRecorded()
    ensures Recorded([], map[])
  {
  }

  lemma RecordedIsDistinct(cs: seq<Chunk>, spans: map<Identity, Span>)
    requires Recorded(cs, spans)
    ensures DistinctIdentities(cs)
  {
  }

  method RecordIdentities(cs: seq<Chunk>, components: Components, highs: map<nat, set<Tag>>)
    returns (r: Result<map<Identity, Span>, StressError>)
    requires components.Valid() && |components.roots| == |cs|
    requires RootsAreComponents(cs, components.roots) && HighsUpTo(cs, components.roots, highs, |cs|)
    modifies components.parent
    ensures r.Ok? <==> StressUnambiguous(cs) && DistinctIdentities(StressResolve(cs))
    ensures r.Ok? ==> Recorded(StressResolve(cs), r.value)
  {
    hide OneTag, Recorded, RootsAreComponents, HighsUpTo, StressResolve, DistinctIdentities;
    ghost var resolved := StressResolve(cs);
    assert resolved[..0] == [];
    NothingRecorded();
    var result: map<Identity, Span> := map[];
    for i := 0 to |cs|
      invariant components.Valid()
      invariant Recorded(resolved[..i], result)
      invariant forall k: nat {:trigger OneTag(cs, k)} :: k < i && cs[k].high.None? ==> OneTag(cs, k)
    {
      var chunk := ResolveChunk(cs, components, highs, i);
      if chunk.Err? {
        return Err(chunk.error);
      }
      var next := RecordChunk(resolved, i, chunk.value, result);
      if next.Err? {
        return Err(next.error);
      }
      result := next.value;
    }
    assert resolved[..|cs|] == resolved;
    RecordedIsDistinct(resolved, result);
    return Ok(result);
  }

  method StressIndex(input: seq<seq<Span>>) returns (r: Result<map<Identity, Span>, StressError>)
    ensures r.Ok? <==> StressAccepts(input)
    ensures r.Ok? ==> Recorded(StressResolve(StressDeclared(input)), r.value)
  {
    var read := ReadChunks(input);
    if read.Err? {
      return Err(read.error);
    }
    var cs := read.value;
    assert forall i :: 0 <= i < |input| ==> SameTrace(input[i]);
    var components := JoinChunks(cs);
    var highs := CollectHighs(cs, components);
    r := RecordIdentities(cs, components, highs);
  }
}
