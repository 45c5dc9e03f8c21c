/** The index and the walk over a trace in plain terms. */
module ShapeLaws {
  import opened Spans
  import opened NativeIndex
  import opened Shapes

  /** Every position is listed once under the span whose ID it names as parent, or else among
      the roots, in ascending order. */
  lemma IndexLinks(t: IndexedTrace)
    requires Indexed(t)
    ensures |t.children| == |t.spans|
    ensures forall p, q: nat :: 0 <= p < |t.spans| ==>
              (q in t.children[p] <==> q < |t.spans| && t.spans[q].parentId == t.spans[p].spanId)
    ensures forall q: nat :: q in t.roots <==>
              q < |t.spans| && forall p :: 0 <= p < |t.spans| ==> t.spans[p].spanId != t.spans[q].parentId
    ensures forall p, i, j :: 0 <= p < |t.spans| && 0 <= i < j < |t.children[p]| ==> t.children[p][i] < t.children[p][j]
    ensures forall i, j :: 0 <= i < j < |t.roots| ==> t.roots[i] < t.roots[j]
    ensures forall p, q :: 0 <= p < q < |t.spans| ==> t.spans[p].spanId != t.spans[q].spanId
  {
    assert forall p, q: nat :: 0 <= p < |t.spans| && q < |t.spans| ==>
        (ParentOf(t.spans, p, q) <==> t.spans[q].parentId == t.spans[p].spanId);
    forall q: nat
      ensures q in t.roots <==>
              q < |t.spans| && forall p :: 0 <= p < |t.spans| ==> t.spans[p].spanId != t.spans[q].parentId
    {
      assert q in t.roots <==> q < |t.spans| && IsRoot(t.spans, q);
    }
  }

  /** A way over parents to a span whose parent the trace does not hold. */
  ghost predicate Rises(spans: seq<Span>, path: seq<nat>) {
    && path != []
    && (forall k :: 0 <= k < |path| ==> path[k] < |spans|)
    && (forall k, l :: 0 <= k < |path| - 1 && l == k + 1 ==> spans[path[l]].spanId == spans[path[k]].parentId)
    && forall p :: 0 <= p < |spans| ==> spans[p].spanId != spans[path[|path| - 1]].parentId
  }

  lemma {:induction false} LevelIff(t: IndexedTrace, q: nat, d: nat)
    requires Indexed(t)
    ensures Level(t, q, d) <==> exists path :: Rises(t.spans, path) && path[0] == q && |path| == d + 1
  {
    hide LinkedUpTo;
    if Level(t, q, d) {
      var path := RiseOf(t, q, d);
    }
    if path :| Rises(t.spans, path) && path[0] == q && |path| == d + 1 {
      RiseLevel(t, path);
    }
  }

  lemma {:induction false} RiseOf(t: IndexedTrace, q: nat, d: nat) returns (path: seq<nat>)
    requires Indexed(t) && Level(t, q, d)
    ensures Rises(t.spans, path) && path[0] == q && |path| == d + 1
    decreases d
  {
    hide LinkedUpTo;
    if d == 0 {
      path := [q];
    } else {
      var parent := t.byId[t.spans[q].parentId];
      var rest := RiseOf(t, parent, d - 1);
      path := [q] + rest;
      forall k, l | 0 <= k < |path| - 1 && l == k + 1
        ensures t.spans[path[l]].spanId == t.spans[path[k]].parentId
      {
        if k > 0 {
          assert t.spans[rest[l - 1]].spanId == t.spans[rest[k - 1]].parentId;
        }
      }
    }
  }

  lemma {:induction false} RiseLevel(t: IndexedTrace, path: seq<nat>)
    requires Indexed(t) && Rises(t.spans, path)
    ensures Level(t, path[0], |path| - 1)
    decreases |path|
  {
    hide LinkedUpTo;
    if |path| > 1 {
      var rest := path[1..];
      assert t.spans[path[1]].spanId == t.spans[path[0]].parentId;
      forall k, l | 0 <= k < |rest| - 1 && l == k + 1
        ensures t.spans[rest[l]].spanId == t.spans[rest[k]].parentId
      {
        assert t.spans[path[l + 1]].spanId == t.spans[path[k + 1]].parentId;
      }
      RiseLevel(t, rest);
    }
  }

  ghost predicate RisesWithin(spans: seq<Span>, q: nat, limit: nat) {
    exists path :: Rises(spans, path) && path[0] == q && |path| <= limit
  }

  lemma WithinIff(t: IndexedTrace, q: nat)
    requires Indexed(t)
    ensures WithinDepth(t, q) <==> RisesWithin(t.spans, q, 65)
  {
    hide Indexed, Level;
    if d: nat :| d <= 64 && Level(t, q, d) {
      LevelIff(t, q, d);
    }
    if path :| Rises(t.spans, path) && path[0] == q && |path| <= 65 {
      LevelIff(t, q, |path| - 1);
      assert Level(t, q, |path| - 1);
    }
  }

  lemma DeepIff(t: IndexedTrace)
    requires Indexed(t)
    ensures HasDeepSpan(t) <==> exists path :: Rises(t.spans, path) && |path| > 65
  {
    hide Indexed, Level;
    if q: nat, d: nat :| d > 64 && Level(t, q, d) {
      LevelIff(t, q, d);
    }
    if path :| Rises(t.spans, path) && |path| > 65 {
      LevelIff(t, path[0], |path| - 1);
      assert Level(t, path[0], |path| - 1);
    }
  }

  /** The walk succeeds exactly when every span rises over at most 65 spans, and reports the
      depth exactly when some span rises over more. */
  lemma WalkIff(t: IndexedTrace)
    requires Indexed(t)
    ensures (forall q: nat :: q < |t.spans| ==> WithinDepth(t, q)) <==>
            forall q: nat :: q < |t.spans| ==> RisesWithin(t.spans, q, 65)
    ensures HasDeepSpan(t) <==> exists path :: Rises(t.spans, path) && |path| > 65
  {
    hide Indexed, Rises, WithinDepth, HasDeepSpan, RisesWithin;
    DeepIff(t);
    forall q: nat
      ensures WithinDepth(t, q) <==> RisesWithin(t.spans, q, 65)
    {
      WithinIff(t, q);
    }
  }

  /** The shapes of a walk: each under the span that its own span names as parent, positions in
      preorder. */
  lemma ShapeIs(t: IndexedTrace, s: Shape)
    ensures Positions(s) == [s.position] + PositionsOfAll(s.children)
    ensures FollowsParents(t, s) ==>
              forall i :: 0 <= i < |s.children| ==>
                && s.position < |t.spans| && s.children[i].position < |t.spans|
                && t.spans[s.children[i].position].parentId == t.spans[s.position].spanId
  {
  }
}
