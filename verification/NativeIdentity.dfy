/** The sink's inference of full trace identities for untagged chunks. */
module NativeIdentity {
  import opened Basics
  import opened Wrappers
  import opened Spans

  datatype IndexError = SemanticViolation | ConflictingHighBits | AmbiguousIdentity | DuplicateSpanId

  // ---- Reading one chunk ----

  predicate ValidSpan(s: Span) {
    && s.traceId > 0 && s.spanId > 0
    && s.start > 0 && s.duration > 0
    && s.otherFieldsValid
    && (s.tid.Some? ==> ValidTid(s.tid.value))
  }

  predicate ValidChunk(spans: seq<Span>) {
    && |spans| > 0
    && (forall i :: 0 <= i < |spans| ==> ValidSpan(spans[i]))
    && SameTrace(spans)
  }

  /** The tag a chunk declares: none, or the one tag all its tagged spans agree on. */
  ghost predicate DeclaresTag(spans: seq<Span>, high: Option<Tag>) {
    ChunkTags(spans) == if high.Some? then {high.value} else {}
  }

  method ChunkHigh(spans: seq<Span>) returns (r: Result<Option<Tag>, IndexError>)
    ensures r.Ok? ==> DeclaresTag(spans, r.value)
    ensures r.Err? ==> r.error == ConflictingHighBits && !exists high :: DeclaresTag(spans, high)
  {
    var high: Option<Tag> := None;
    for i := 0 to |spans|
      invariant DeclaresTag(spans[..i], high)
      invariant high.Some? ==> Lower(high.value) == high.value
    {
      assert spans[..i + 1] == spans[..i] + [spans[i]];
      assert ChunkTags(spans[..i + 1]) ==
             ChunkTags(spans[..i]) + (if spans[i].tid.Some? then {Lower(spans[i].tid.value)} else {});
      if spans[i].tid.Some? {
        LowerIdempotent(spans[i].tid.value);
        if high.Some? && Lower(high.value) != Lower(spans[i].tid.value) {
          TwoTagsConflict(spans, high.value, Lower(spans[i].tid.value));
          return Err(ConflictingHighBits);
        }
        high := Some(Lower(spans[i].tid.value));
      }
    }
    assert spans[..|spans|] == spans;
    return Ok(high);
  }

  lemma TwoTagsConflict(spans: seq<Span>, s: Tag, t: Tag)
    requires s in ChunkTags(spans) && t in ChunkTags(spans) && s != t
    ensures !exists high :: DeclaresTag(spans, high)
  {
  }

  // ---- Inheriting tags along span links ----

  ghost predicate Untagged(cs: seq<Chunk>, i: nat) {
    i < |cs| && cs[i].high.None?
  }

  /** A walk along links that passes through untagged chunks only and ends at a
      chunk tagged t. */
  ghost predicate TouchPath(cs: seq<Chunk>, p: seq<nat>, t: Tag) {
    && |p| >= 2
    && (forall k :: 0 <= k < |p| ==> p[k] < |cs|)
    && (forall k :: 0 <= k < |p| - 1 ==> Untagged(cs, p[k]) && Linked(cs, p[k], p[k + 1]))
    && cs[p[|p| - 1]].high == Some(t)
  }

  /** The component of untagged chunks around i touches the tag t. */
  ghost predicate Touches(cs: seq<Chunk>, i: nat, t: Tag) {
    exists p :: TouchPath(cs, p, t) && p[0] == i
  }

  /** No component of untagged chunks touches two distinct tags. */
  ghost predicate Unambiguous(cs: seq<Chunk>) {
    forall i, s, t :: Touches(cs, i, s) && Touches(cs, i, t) ==> s == t
  }

  ghost function ResolvedHigh(cs: seq<Chunk>, i: nat): Option<Tag>
    requires i < |cs|
  {
    if cs[i].high.Some? then cs[i].high
    else if exists t :: Touches(cs, i, t) then var t :| Touches(cs, i, t); Some(t)
    else None
  }

  /** Every chunk with its own tag, else the tag its component touches, else none. */
  ghost function Resolve(cs: seq<Chunk>): (r: seq<Chunk>)
    ensures |r| == |cs|
  {
    seq(|cs|, i requires 0 <= i < |cs| => cs[i].(high := ResolvedHigh(cs, i)))
  }

  lemma TouchThroughTagged(cs: seq<Chunk>, i: nat, j: nat)
    requires i < |cs| && j < |cs| && Untagged(cs, i) && Linked(cs, i, j) && cs[j].high.Some?
    ensures Touches(cs, i, cs[j].high.value)
  {
    assert TouchPath(cs, [i, j], cs[j].high.value);
  }

  lemma TouchThroughUntagged(cs: seq<Chunk>, i: nat, j: nat, t: Tag)
    requires i < |cs| && j < |cs| && Untagged(cs, i) && Linked(cs, i, j) && Touches(cs, j, t)
    ensures Touches(cs, i, t)
  {
    var p :| TouchPath(cs, p, t) && p[0] == j;
    var q := [i] + p;
    assert forall k :: 1 <= k < |q| ==> q[k] == p[k - 1];
    assert TouchPath(cs, q, t);
  }

  /** The in-memory state of the fixpoint relative to the chunks it started from. */
  ghost predicate Progress(init: seq<Chunk>, cur: seq<Chunk>) {
    && |cur| == |init|
    && (forall k :: 0 <= k < |cur| ==> cur[k].low == init[k].low && cur[k].spans == init[k].spans)
    && (forall k :: 0 <= k < |cur| && init[k].high.Some? ==> cur[k].high == init[k].high)
    && (forall k :: 0 <= k < |cur| && init[k].high.None? && cur[k].high.Some? ==> Touches(init, k, cur[k].high.value))
    && (forall k, j :: 0 <= k < |cur| && 0 <= j < |cur| && init[k].high.None? && Linked(init, k, j)
          && cur[k].high.Some? && cur[j].high.Some?
          ==> cur[k].high == cur[j].high)
  }

  lemma LinkedSymmetric(cs: seq<Chunk>, i: nat, j: nat)
    requires i < |cs| && j < |cs|
    ensures Linked(cs, i, j) == Linked(cs, j, i)
  {
  }

  /** A tagged neighbour's tag is one that the untagged chunk touches. */
  lemma NeighbourTouches(init: seq<Chunk>, cur: seq<Chunk>, i: nat, j: nat)
    requires Progress(init, cur) && i < |cur| && j < |cur|
    requires cur[i].high.None? && cur[j].high.Some? && Linked(init, i, j)
    ensures Touches(init, i, cur[j].high.value)
  {
    if init[j].high.Some? {
      TouchThroughTagged(init, i, j);
    } else {
      TouchThroughUntagged(init, i, j, cur[j].high.value);
    }
  }

  /** Tags of the already tagged chunks linked to i. */
  ghost function Candidates(cs: seq<Chunk>, i: nat): set<Tag>
    requires i < |cs|
  {
    set j | 0 <= j < |cs| && cs[j].high.Some? && Linked(cs, i, j) :: cs[j].high.value
  }

  method CollectCandidates(chunks: array<Chunk>, i: nat) returns (candidates: set<Tag>)
    requires i < chunks.Length
    ensures candidates == Candidates(chunks[..], i)
  {
    candidates := {};
    for j := 0 to chunks.Length
      invariant candidates == set k | 0 <= k < j && chunks[k].high.Some? && Linked(chunks[..], i, k) ::
                chunks[k].high.value
    {
      if chunks[j].low == chunks[i].low && chunks[j].high.Some? && SpansLinked(chunks[i].spans, chunks[j].spans) {
        candidates := candidates + {chunks[j].high.value};
      }
    }
  }

  lemma TagOne(init: seq<Chunk>, cur: seq<Chunk>, i: nat, t: Tag)
    requires Progress(init, cur) && i < |cur| && cur[i].high.None? && Candidates(cur, i) == {t}
    ensures Progress(init, cur[i := cur[i].(high := Some(t))])
  {
    var j :| 0 <= j < |cur| && cur[j].high.Some? && Linked(cur, i, j) && cur[j].high.value == t;
    NeighbourTouches(init, cur, i, j);
    var next := cur[i := cur[i].(high := Some(t))];
    forall k, l | 0 <= k < |next| && 0 <= l < |next| && init[k].high.None? && Linked(init, k, l) &&
                  next[k].high.Some? && next[l].high.Some?
      ensures next[k].high == next[l].high
    {
      LinkedSymmetric(init, k, l);
      if k == i && l != i {
        assert Linked(cur, i, l);
        assert cur[l].high.value in Candidates(cur, i);
      } else if l == i && k != i {
        assert Linked(cur, i, k);
        assert cur[k].high.value in Candidates(cur, i);
      }
    }
  }

  lemma TwoCandidatesAmbiguous(init: seq<Chunk>, cur: seq<Chunk>, i: nat)
    requires Progress(init, cur) && i < |cur| && cur[i].high.None? && |Candidates(cur, i)| > 1
    ensures !Unambiguous(init)
  {
    var s :| s in Candidates(cur, i);
    var rest := Candidates(cur, i) - {s};
    assert |rest| == |Candidates(cur, i)| - 1;
    var t :| t in rest;
    var j :| 0 <= j < |cur| && cur[j].high.Some? && Linked(cur, i, j) && cur[j].high.value == s;
    var k :| 0 <= k < |cur| && cur[k].high.Some? && Linked(cur, i, k) && cur[k].high.value == t;
    NeighbourTouches(init, cur, i, j);
    NeighbourTouches(init, cur, i, k);
  }

  ghost predicate Settled(cur: seq<Chunk>) {
    forall i :: 0 <= i < |cur| && cur[i].high.None? ==> Candidates(cur, i) == {}
  }

  /** Once nothing changes any more, a touched chunk holds the touched tag. */
  lemma {:induction false} SettledTouch(init: seq<Chunk>, cur: seq<Chunk>, p: seq<nat>, t: Tag)
    requires Progress(init, cur) && Settled(cur) && TouchPath(init, p, t)
    ensures cur[p[0]].high == Some(t)
    decreases |p|
  {
    var i, j := p[0], p[1];
    assert Untagged(init, i) && Linked(init, i, j);
    if |p| > 2 {
      var q := p[1..];
      assert forall k :: 0 <= k < |q| ==> q[k] == p[k + 1];
      assert TouchPath(init, q, t);
      SettledTouch(init, cur, q, t);
    }
    assert cur[j].high == Some(t) && Linked(cur, i, j);
    assert cur[i].high.None? ==> t in Candidates(cur, i);
  }

  lemma SettledIsResolved(init: seq<Chunk>, cur: seq<Chunk>)
    requires Progress(init, cur) && Settled(cur)
    ensures Unambiguous(init) && cur == Resolve(init)
  {
    forall i: nat, t | Touches(init, i, t)
      ensures i < |cur| && cur[i].high == Some(t)
    {
      var p :| TouchPath(init, p, t) && p[0] == i;
      SettledTouch(init, cur, p, t);
    }
    forall i | 0 <= i < |cur|
      ensures cur[i] == Resolve(init)[i]
    {
      if init[i].high.None? && cur[i].high.Some? {
        assert Touches(init, i, cur[i].high.value);
      }
    }
  }

  ghost function UntaggedCount(cs: seq<Chunk>): nat {
    |set i | 0 <= i < |cs| && cs[i].high.None?|
  }

  lemma TaggingDecreases(cs: seq<Chunk>, i: nat, t: Tag)
    requires i < |cs| && cs[i].high.None?
    ensures UntaggedCount(cs[i := cs[i].(high := Some(t))]) < UntaggedCount(cs)
  {
    var next := cs[i := cs[i].(high := Some(t))];
    var before := set k | 0 <= k < |cs| && cs[k].high.None?;
    assert (set k | 0 <= k < |next| && next[k].high.None?) == before - {i};
    assert |before - {i}| == |before| - 1;
  }

  /** The sink's fixpoint, rewriting chunk tags in place. */
  method InheritTags(chunks: array<Chunk>) returns (ok: bool)
    modifies chunks
    ensures ok <==> Unambiguous(old(chunks[..]))
    ensures ok ==> chunks[..] == Resolve(old(chunks[..]))
  {
    ghost var init := chunks[..];
    var changed := true;
    while changed
      invariant Progress(init, chunks[..])
      invariant !changed ==> Settled(chunks[..])
      decreases UntaggedCount(chunks[..]), changed
    {
      changed := false;
      ghost var before := chunks[..];
      for i := 0 to chunks.Length
        invariant Progress(init, chunks[..])
        invariant !changed ==> chunks[..] == before
        invariant changed ==> UntaggedCount(chunks[..]) < UntaggedCount(before)
        invariant !changed ==> forall k :: 0 <= k < i && before[k].high.None? ==> Candidates(before, k) == {}
      {
        if chunks[i].high.None? {
          ghost var cur := chunks[..];
          var candidates := CollectCandidates(chunks, i);
          if |candidates| > 1 {
            TwoCandidatesAmbiguous(init, cur, i);
            return false;
          }
          if candidates != {} {
            var high :| high in candidates;
            assert candidates == {high} by {
              assert |candidates - {high}| == |candidates| - 1;
            }
            TagOne(init, cur, i, high);
            TaggingDecreases(cur, i, high);
            chunks[i] := chunks[i].(high := Some(high));
            assert chunks[..] == cur[i := cur[i].(high := Some(high))];
            changed := true;
          }
        }
      }
    }
    SettledIsResolved(init, chunks[..]);
    return true;
  }

  // ---- Independence of arrival order ----

  /** ds is cs in another order: pi and inv are mutually inverse and ds[k] is cs[pi[k]]. */
  ghost predicate Reordered(cs: seq<Chunk>, ds: seq<Chunk>, pi: seq<nat>, inv: seq<nat>) {
    && |ds| == |cs| == |pi| == |inv|
    && (forall k :: 0 <= k < |pi| ==> pi[k] < |cs| && inv[pi[k]] == k && ds[k] == cs[pi[k]])
    && (forall i :: 0 <= i < |inv| ==> inv[i] < |ds| && pi[inv[i]] == i)
  }

  lemma ReorderedTouch(cs: seq<Chunk>, ds: seq<Chunk>, pi: seq<nat>, inv: seq<nat>, k: nat, t: Tag)
    requires Reordered(cs, ds, pi, inv) && Touches(ds, k, t)
    ensures k < |ds| && Touches(cs, pi[k], t)
  {
    var p :| TouchPath(ds, p, t) && p[0] == k;
    var q := seq(|p|, m requires 0 <= m < |p| => pi[p[m]]);
    forall m | 0 <= m < |q| - 1
      ensures Untagged(cs, q[m]) && Linked(cs, q[m], q[m + 1])
    {
      assert Untagged(ds, p[m]) && Linked(ds, p[m], p[m + 1]);
    }
    assert TouchPath(cs, q, t);
  }

  lemma ReorderedUnambiguous(cs: seq<Chunk>, ds: seq<Chunk>, pi: seq<nat>, inv: seq<nat>)
    requires Reordered(cs, ds, pi, inv) && Unambiguous(cs)
    ensures Unambiguous(ds)
  {
    forall k: nat, s, t | Touches(ds, k, s) && Touches(ds, k, t)
      ensures s == t
    {
      ReorderedTouch(cs, ds, pi, inv, k, s);
      ReorderedTouch(cs, ds, pi, inv, k, t);
    }
  }

  /** Chunk order changes neither acceptance nor the tag any chunk receives. */
  lemma OrderIndependence(cs: seq<Chunk>, ds: seq<Chunk>, pi: seq<nat>, inv: seq<nat>)
    requires Reordered(cs, ds, pi, inv)
    ensures Unambiguous(cs) <==> Unambiguous(ds)
    ensures Unambiguous(cs) ==> forall k :: 0 <= k < |ds| ==> Resolve(ds)[k] == Resolve(cs)[pi[k]]
  {
    assert Reordered(ds, cs, inv, pi);
    if Unambiguous(cs) {
      ReorderedUnambiguous(cs, ds, pi, inv);
      forall k | 0 <= k < |ds|
        ensures Resolve(ds)[k] == Resolve(cs)[pi[k]]
      {
        forall t
          ensures Touches(ds, k, t) <==> Touches(cs, pi[k], t)
        {
          if Touches(ds, k, t) {
            ReorderedTouch(cs, ds, pi, inv, k, t);
          }
          if Touches(cs, pi[k], t) {
            ReorderedTouch(ds, cs, inv, pi, pi[k], t);
          }
        }
      }
    }
    if Unambiguous(ds) {
      ReorderedUnambiguous(ds, cs, inv, pi);
    }
  }
}
