/** The tree walk over one indexed trace, which excludes cycles by counting visits. */
module Shapes {
  import opened Wrappers
  import opened NativeIndex

  const MAX_DEPTH: nat := 64

  datatype ShapeError = TooDeep | VisitLimit | Disconnected

  // The printed form of a node is left abstract: a shape is its span and its children.
  datatype Shape = Shape(position: nat, children: seq<Shape>)

  function Positions(s: Shape): seq<nat> {
    [s.position] + PositionsOfAll(s.children)
  }

  function PositionsOfAll(shapes: seq<Shape>): seq<nat> {
    if shapes == [] then []
    else PositionsOfAll(shapes[..|shapes| - 1]) + Positions(shapes[|shapes| - 1])
  }

  /** Every edge of the shape is a parent link of the trace. */
  ghost predicate FollowsParents(t: IndexedTrace, s: Shape) {
    forall i :: 0 <= i < |s.children| ==>
      ParentOf(t.spans, s.position, s.children[i].position) && FollowsParents(t, s.children[i])
  }

  // ---- Parent chains ----

  /** d parent steps lead from q to a root. */
  ghost predicate Level(t: IndexedTrace, q: nat, d: nat)
    requires Indexed(t)
    decreases d
  {
    q < |t.spans| &&
    if d == 0 then t.spans[q].parentId !in t.byId
    else t.spans[q].parentId in t.byId && Level(t, t.byId[t.spans[q].parentId], d - 1)
  }

  /** k parent steps lead from q to p. */
  ghost predicate Climbs(t: IndexedTrace, p: nat, q: nat, k: nat)
    requires Indexed(t)
    decreases k
  {
    q < |t.spans| &&
    if k == 0 then q == p
    else t.spans[q].parentId in t.byId && Climbs(t, p, t.byId[t.spans[q].parentId], k - 1)
  }

  ghost predicate Under(t: IndexedTrace, p: nat, q: nat)
    requires Indexed(t)
  {
    exists k :: Climbs(t, p, q, k)
  }

  ghost function UnderSet(t: IndexedTrace, p: nat): set<nat>
    requires Indexed(t)
  {
    set q | 0 <= q < |t.spans| && Under(t, p, q)
  }

  lemma {:induction false} LevelUnique(t: IndexedTrace, q: nat, d: nat, e: nat)
    requires Indexed(t) && Level(t, q, d) && Level(t, q, e)
    ensures d == e
    decreases d
  {
    if d > 0 && e > 0 {
      LevelUnique(t, t.byId[t.spans[q].parentId], d - 1, e - 1);
    }
  }

  lemma {:induction false} LevelBelow(t: IndexedTrace, p: nat, q: nat, k: nat, d: nat)
    requires Indexed(t) && Climbs(t, p, q, k) && Level(t, p, d)
    ensures Level(t, q, d + k)
    decreases k
  {
    if k > 0 {
      LevelBelow(t, p, t.byId[t.spans[q].parentId], k - 1, d);
    }
  }

  lemma {:induction false} SameClimb(t: IndexedTrace, p: nat, r: nat, q: nat, k: nat)
    requires Indexed(t) && Climbs(t, p, q, k) && Climbs(t, r, q, k)
    ensures p == r
    decreases k
  {
    if k > 0 {
      SameClimb(t, p, r, t.byId[t.spans[q].parentId], k - 1);
    }
  }

  /** Subtrees of two different nodes of one level are disjoint. */
  lemma SiblingsDisjoint(t: IndexedTrace, p: nat, r: nat, d: nat)
    requires Indexed(t) && Level(t, p, d) && Level(t, r, d) && p != r
    ensures UnderSet(t, p) !! UnderSet(t, r)
  {
    forall q | q in UnderSet(t, p) && q in UnderSet(t, r)
      ensures false
    {
      var k :| Climbs(t, p, q, k);
      var l :| Climbs(t, r, q, l);
      LevelBelow(t, p, q, k, d);
      LevelBelow(t, r, q, l, d);
      LevelUnique(t, q, d + k, d + l);
      SameClimb(t, p, r, q, k);
    }
  }

  lemma {:induction false} ClimbThroughChild(t: IndexedTrace, p: nat, q: nat, k: nat) returns (c: nat)
    requires Indexed(t) && p < |t.spans| && Climbs(t, p, q, k) && k > 0
    ensures ParentOf(t.spans, p, c) && Climbs(t, c, q, k - 1)
    decreases k
  {
    var parent := t.byId[t.spans[q].parentId];
    if k == 1 {
      c := q;
    } else {
      c := ClimbThroughChild(t, p, parent, k - 1);
    }
  }

  lemma {:induction false} ExtendClimb(t: IndexedTrace, p: nat, c: nat, q: nat, k: nat)
    requires Indexed(t) && ParentOf(t.spans, p, c) && Climbs(t, c, q, k)
    ensures Climbs(t, p, q, k + 1)
    decreases k
  {
    if k == 0 {
      assert t.byId[t.spans[q].parentId] == p;
      assert Climbs(t, p, p, 0);
    } else {
      ExtendClimb(t, p, c, t.byId[t.spans[q].parentId], k - 1);
    }
  }

  // Everything under the first n of the given positions.
  ghost function UnderFirst(t: IndexedTrace, ps: seq<nat>, n: nat): set<nat>
    requires Indexed(t) && n <= |ps|
  {
    if n == 0 then {} else UnderFirst(t, ps, n - 1) + UnderSet(t, ps[n - 1])
  }

  lemma {:induction false} UnderFirstMember(t: IndexedTrace, ps: seq<nat>, n: nat, q: nat)
    requires Indexed(t) && n <= |ps|
    ensures q in UnderFirst(t, ps, n) <==> exists i :: 0 <= i < n && q in UnderSet(t, ps[i])
  {
    if n > 0 {
      UnderFirstMember(t, ps, n - 1, q);
    }
  }

  lemma UnderByChildren(t: IndexedTrace, p: nat, d: nat)
    requires Indexed(t) && Level(t, p, d)
    ensures UnderSet(t, p) == {p} + UnderFirst(t, t.children[p], |t.children[p]|)
    ensures p !in UnderFirst(t, t.children[p], |t.children[p]|)
    ensures forall i :: 0 <= i < |t.children[p]| ==> Level(t, t.children[p][i], d + 1)
  {
    var cs := t.children[p];
    forall i | 0 <= i < |cs|
      ensures ParentOf(t.spans, p, cs[i]) && Level(t, cs[i], d + 1)
    {
      assert cs[i] in cs;
      assert Level(t, t.byId[t.spans[cs[i]].parentId], d);
    }
    forall q: nat
      ensures q in UnderFirst(t, cs, |cs|) <==> q in UnderSet(t, p) && q != p
    {
      UnderFirstMember(t, cs, |cs|, q);
      if q in UnderSet(t, p) && q != p {
        var k :| Climbs(t, p, q, k);
        var c := ClimbThroughChild(t, p, q, k);
        assert Under(t, c, q) && c in cs;
        var i :| 0 <= i < |cs| && cs[i] == c;
        assert q in UnderSet(t, cs[i]);
      }
      if i :| 0 <= i < |cs| && q in UnderSet(t, cs[i]) {
        var k :| Climbs(t, cs[i], q, k);
        ExtendClimb(t, p, cs[i], q, k);
        assert Under(t, p, q);
        if q == p {
          LevelBelow(t, cs[i], q, k, d + 1);
          LevelUnique(t, p, d, d + 1 + k);
        }
      }
    }
    assert Climbs(t, p, p, 0);
  }

  lemma UnderNext(t: IndexedTrace, ps: seq<nat>, n: nat, d: nat)
    requires Indexed(t) && n < |ps| && Ascending(ps)
    requires forall i :: 0 <= i < |ps| ==> Level(t, ps[i], d)
    ensures UnderFirst(t, ps, n) !! UnderSet(t, ps[n])
    ensures UnderFirst(t, ps, n + 1) <= UnderFirst(t, ps, |ps|)
    ensures forall q :: q in UnderFirst(t, ps, n) ==> q < |t.spans|
  {
    forall q | q in UnderFirst(t, ps, n)
      ensures q < |t.spans|
    {
      UnderFirstMember(t, ps, n, q);
    }
    forall q: nat | q in UnderFirst(t, ps, n) && q in UnderSet(t, ps[n])
      ensures false
    {
      UnderFirstMember(t, ps, n, q);
      var i :| 0 <= i < n && q in UnderSet(t, ps[i]);
      SiblingsDisjoint(t, ps[i], ps[n], d);
    }
    forall q: nat | q in UnderFirst(t, ps, n + 1)
      ensures q in UnderFirst(t, ps, |ps|)
    {
      UnderFirstMember(t, ps, n + 1, q);
      UnderFirstMember(t, ps, |ps|, q);
    }
  }

  // ---- The walk ----

  lemma BoundedSet(s: set<nat>, n: nat)
    requires forall x :: x in s ==> x < n
    ensures |s| <= n
    ensures |s| == n ==> forall x: nat :: x < n ==> x in s
  {
    if n == 0 {
      assert s == {};
    } else {
      BoundedSet(s - {n - 1}, n - 1);
    }
  }

  /** Walking `part` after `seen`: the shapes hold each position of `part` exactly
      once, the counter counts both, and nothing in `part` lies too deep. */
  ghost predicate Walked(t: IndexedTrace, positions: seq<nat>, part: set<nat>, seen: set<nat>, visited: nat)
    requires Indexed(t)
  {
    && (forall q :: q in positions <==> q in part)
    && |positions| == |part|
    && visited == |seen| + |part|
    && forall q, d: nat :: q in part && Level(t, q, d) ==> d <= MAX_DEPTH
  }

  ghost predicate HasDeepSpan(t: IndexedTrace)
    requires Indexed(t)
  {
    exists q: nat, d: nat :: d > MAX_DEPTH && Level(t, q, d)
  }

  // The positions already visited, none of them in the part still to walk.
  ghost predicate Fresh(t: IndexedTrace, part: set<nat>, seen: set<nat>, visited: nat) {
    visited == |seen| && (forall q :: q in seen ==> q < |t.spans|) && seen !! part
  }

  method Node(t: IndexedTrace, position: nat, depth: nat, visited: nat, ghost seen: set<nat>)
    returns (r: Result<Shape, ShapeError>, visited': nat)
    requires Indexed(t) && depth <= MAX_DEPTH + 1 && Level(t, position, depth)
    requires Fresh(t, UnderSet(t, position), seen, visited)
    ensures r.Ok? ==> Walked(t, Positions(r.value), UnderSet(t, position), seen, visited')
    ensures r.Ok? ==> r.value.position == position && FollowsParents(t, r.value)
    ensures r.Err? ==> r.error == TooDeep && HasDeepSpan(t)
    decreases MAX_DEPTH + 1 - depth, 0
  {
    visited' := visited;
    if depth > MAX_DEPTH {
      return Err(TooDeep), visited';
    }
    BeforeChildren(t, position, depth, seen, visited);
    if visited' >= |t.spans| {
      return Err(VisitLimit), visited';
    }
    visited' := visited' + 1;
    var children;
    children, visited' := Nodes(t, t.children[position], depth + 1, visited', seen + {position});
    if children.Err? {
      return Err(children.error), visited';
    }
    r := Ok(Shape(position, children.value));
    AssembleNode(t, position, depth, children.value, seen, visited');
  }

  lemma BeforeChildren(t: IndexedTrace, position: nat, depth: nat, seen: set<nat>, visited: nat)
    requires Indexed(t) && Level(t, position, depth) && Fresh(t, UnderSet(t, position), seen, visited)
    ensures position !in seen && visited < |t.spans|
    ensures var ps := t.children[position];
            Fresh(t, UnderFirst(t, ps, |ps|), seen + {position}, visited + 1) && AtLevel(t, ps, depth + 1)
  {
    UnderByChildren(t, position, depth);
    assert position in UnderSet(t, position);
    BoundedSet(seen + {position}, |t.spans|);
    assert |seen + {position}| == visited + 1;
  }

  lemma AssembleNode(t: IndexedTrace, position: nat, depth: nat, children: seq<Shape>, seen: set<nat>, visited: nat)
    requires Indexed(t) && depth <= MAX_DEPTH && Level(t, position, depth) && position !in seen
    requires var ps := t.children[position];
             && Walked(t, PositionsOfAll(children), UnderFirst(t, ps, |ps|), seen + {position}, visited)
             && WalkedShapes(t, ps, children)
    ensures Walked(t, Positions(Shape(position, children)), UnderSet(t, position), seen, visited)
    ensures FollowsParents(t, Shape(position, children))
  {
    var ps := t.children[position];
    UnderByChildren(t, position, depth);
    forall d: nat | Level(t, position, d)
      ensures d == depth
    {
      LevelUnique(t, position, d, depth);
    }
    forall i | 0 <= i < |children|
      ensures ParentOf(t.spans, position, children[i].position)
    {
      assert ps[i] in ps;
    }
  }

  ghost predicate WalkedShapes(t: IndexedTrace, ps: seq<nat>, shapes: seq<Shape>) {
    |shapes| == |ps| && forall i :: 0 <= i < |ps| ==> shapes[i].position == ps[i] && FollowsParents(t, shapes[i])
  }

  ghost predicate AtLevel(t: IndexedTrace, ps: seq<nat>, d: nat)
    requires Indexed(t)
  {
    Ascending(ps) && forall i :: 0 <= i < |ps| ==> Level(t, ps[i], d)
  }

  /** The first shapes, one per position of ps, are walked. */
  ghost predicate WalkedFirst(t: IndexedTrace, ps: seq<nat>, shapes: seq<Shape>, seen: set<nat>, visited: nat)
    requires Indexed(t) && |shapes| <= |ps|
  {
    && Walked(t, PositionsOfAll(shapes), UnderFirst(t, ps, |shapes|), seen, visited)
    && WalkedShapes(t, ps[..|shapes|], shapes)
  }

  method Nodes(t: IndexedTrace, ps: seq<nat>, depth: nat, visited: nat, ghost seen: set<nat>)
    returns (r: Result<seq<Shape>, ShapeError>, visited': nat)
    requires Indexed(t) && depth <= MAX_DEPTH + 1 && AtLevel(t, ps, depth)
    requires Fresh(t, UnderFirst(t, ps, |ps|), seen, visited)
    ensures r.Ok? ==> Walked(t, PositionsOfAll(r.value), UnderFirst(t, ps, |ps|), seen, visited')
    ensures r.Ok? ==> WalkedShapes(t, ps, r.value)
    ensures r.Err? ==> r.error == TooDeep && HasDeepSpan(t)
    decreases MAX_DEPTH + 1 - depth, 1
  {
    var shapes := [];
    visited' := visited;
    for i := 0 to |ps|
      invariant |shapes| == i && WalkedFirst(t, ps, shapes, seen, visited')
    {
      BeforeNode(t, ps, shapes, depth, seen, visited, visited');
      var shape;
      shape, visited' := Node(t, ps[i], depth, visited', seen + UnderFirst(t, ps, i));
      if shape.Err? {
        return Err(shape.error), visited';
      }
      AfterNode(t, ps, shapes, shape.value, depth, seen, visited');
      shapes := shapes + [shape.value];
    }
    assert ps[..|ps|] == ps;
    r := Ok(shapes);
  }

  lemma BeforeNode(t: IndexedTrace, ps: seq<nat>, shapes: seq<Shape>, depth: nat, seen: set<nat>, visited: nat,
                   visited': nat)
    requires Indexed(t) && |shapes| < |ps| && AtLevel(t, ps, depth)
    requires Fresh(t, UnderFirst(t, ps, |ps|), seen, visited)
    requires WalkedFirst(t, ps, shapes, seen, visited')
    ensures Level(t, ps[|shapes|], depth)
    ensures Fresh(t, UnderSet(t, ps[|shapes|]), seen + UnderFirst(t, ps, |shapes|), visited')
    ensures seen !! UnderFirst(t, ps, |shapes|)
  {
    var i := |shapes|;
    var before := UnderFirst(t, ps, i);
    UnderNext(t, ps, i, depth);
    assert before <= UnderFirst(t, ps, |ps|);
    assert |seen + before| == |seen| + |before|;
  }

  lemma AfterNode(t: IndexedTrace, ps: seq<nat>, shapes: seq<Shape>, shape: Shape, depth: nat, seen: set<nat>,
                  visited: nat)
    requires Indexed(t) && |shapes| < |ps| && AtLevel(t, ps, depth)
    requires shape.position == ps[|shapes|] && FollowsParents(t, shape)
    requires seen !! UnderFirst(t, ps, |shapes|)
    requires WalkedFirst(t, ps, shapes, seen, |seen + UnderFirst(t, ps, |shapes|)|)
    requires Walked(t, Positions(shape), UnderSet(t, ps[|shapes|]), seen + UnderFirst(t, ps, |shapes|), visited)
    ensures WalkedFirst(t, ps, shapes + [shape], seen, visited)
  {
    var i := |shapes|;
    UnderNext(t, ps, i, depth);
    WalkedBoth(t, PositionsOfAll(shapes), UnderFirst(t, ps, i), Positions(shape), UnderSet(t, ps[i]), seen, visited);
    PositionsAppend(shapes, shape);
    WalkedShapesAppend(t, ps, shapes, shape);
  }

  lemma PositionsAppend(shapes: seq<Shape>, shape: Shape)
    ensures PositionsOfAll(shapes + [shape]) == PositionsOfAll(shapes) + Positions(shape)
  {
    assert (shapes + [shape])[..|shapes|] == shapes;
  }

  lemma WalkedShapesAppend(t: IndexedTrace, ps: seq<nat>, shapes: seq<Shape>, shape: Shape)
    requires |shapes| < |ps| && WalkedShapes(t, ps[..|shapes|], shapes)
    requires shape.position == ps[|shapes|] && FollowsParents(t, shape)
    ensures WalkedShapes(t, ps[..|shapes| + 1], shapes + [shape])
  {
    forall j | 0 <= j < |shapes|
      ensures shapes[j].position == ps[j] && FollowsParents(t, shapes[j])
    {
      assert ps[..|shapes|][j] == ps[j];
    }
  }

  lemma WalkedBoth(t: IndexedTrace, xs: seq<nat>, part: set<nat>, ys: seq<nat>, next: set<nat>, seen: set<nat>,
                   visited: nat)
    requires Indexed(t) && seen !! part && part !! next
    requires Walked(t, xs, part, seen, |seen + part|)
    requires Walked(t, ys, next, seen + part, visited)
    ensures Walked(t, xs + ys, part + next, seen, visited)
  {
    assert |part + next| == |part| + |next|;
  }

  ghost predicate EndsAtRoot(t: IndexedTrace, q: nat)
    requires Indexed(t)
  {
    exists d :: Level(t, q, d)
  }

  /** A span within reach of the walk: its chain ends at a root in time. */
  ghost predicate WithinDepth(t: IndexedTrace, q: nat)
    requires Indexed(t)
  {
    exists d: nat :: d <= MAX_DEPTH && Level(t, q, d)
  }

  /** The walk over a whole trace succeeds exactly when every span's parent chain
      ends at a root after at most 64 steps, and then visits each span once; the
      visit guard never fires. */
  method Walk(t: IndexedTrace) returns (r: Result<seq<Shape>, ShapeError>)
    requires Indexed(t)
    ensures r.Ok? <==> forall q: nat :: q < |t.spans| ==> WithinDepth(t, q)
    ensures r == Err(TooDeep) <==> HasDeepSpan(t)
    ensures r != Err(VisitLimit)
    ensures r.Ok? ==> WalkedShapes(t, t.roots, r.value)
    ensures r.Ok? ==> |PositionsOfAll(r.value)| == |t.spans|
    ensures r.Ok? ==> forall q: nat :: q in PositionsOfAll(r.value) <==> q < |t.spans|
  {
    RootsAreLevelZero(t);
    forall i | 0 <= i < |t.roots|
      ensures Level(t, t.roots[i], 0)
    {
      assert t.roots[i] in t.roots;
    }
    var visited: nat;
    r, visited := Nodes(t, t.roots, 0, 0, {});
    if r.Err? {
      DeepIsNotWithin(t);
      return;
    }
    ghost var reached := UnderFirst(t, t.roots, |t.roots|);
    forall q | q in reached
      ensures q < |t.spans|
    {
      UnderFirstMember(t, t.roots, |t.roots|, q);
    }
    BoundedSet(reached, |t.spans|);
    forall q: nat | q < |t.spans|
      ensures q in reached <==> WithinDepth(t, q)
    {
      ReachedIffLevel(t, q);
      if q in reached {
        var d: nat :| Level(t, q, d);
        assert d <= MAX_DEPTH;
      }
    }
    assert !HasDeepSpan(t) by {
      forall q: nat, d: nat | Level(t, q, d)
        ensures d <= MAX_DEPTH
      {
        assert EndsAtRoot(t, q);
        ReachedIffLevel(t, q);
      }
    }
    if visited != |t.spans| {
      AllInSet(reached, |t.spans|);
      return Err(Disconnected);
    }
  }

  lemma DeepIsNotWithin(t: IndexedTrace)
    requires Indexed(t) && HasDeepSpan(t)
    ensures exists q: nat :: q < |t.spans| && !WithinDepth(t, q)
  {
    var q: nat, d: nat :| d > MAX_DEPTH && Level(t, q, d);
    if WithinDepth(t, q) {
      var e: nat :| e <= MAX_DEPTH && Level(t, q, e);
      LevelUnique(t, q, d, e);
    }
  }

  lemma AllInSet(s: set<nat>, n: nat)
    requires forall x :: x in s ==> x < n
    requires |s| != n
    ensures exists x: nat :: x < n && x !in s
  {
    if forall x: nat :: x < n ==> x in s {
      CountUp(s, n);
    }
  }

  lemma CountUp(s: set<nat>, n: nat)
    requires forall x: nat :: x in s <==> x < n
    ensures |s| == n
  {
    if n == 0 {
      assert s == {};
    } else {
      CountUp(s - {n - 1}, n - 1);
    }
  }

  lemma RootsAreLevelZero(t: IndexedTrace)
    requires Indexed(t)
    ensures forall q: nat :: q in t.roots <==> Level(t, q, 0)
  {
    forall q: nat | q < |t.spans|
      ensures IsRoot(t.spans, q) <==> t.spans[q].parentId !in t.byId
    {
      if t.spans[q].parentId in t.byId {
        assert ParentOf(t.spans, t.byId[t.spans[q].parentId], q);
      }
    }
  }

  lemma {:induction false} LevelHasRoot(t: IndexedTrace, q: nat, d: nat) returns (root: nat)
    requires Indexed(t) && Level(t, q, d)
    ensures Level(t, root, 0) && Climbs(t, root, q, d)
    decreases d
  {
    if d == 0 {
      root := q;
    } else {
      root := LevelHasRoot(t, t.byId[t.spans[q].parentId], d - 1);
    }
  }

  lemma ReachedIffLevel(t: IndexedTrace, q: nat)
    requires Indexed(t) && q < |t.spans|
    ensures q in UnderFirst(t, t.roots, |t.roots|) <==> EndsAtRoot(t, q)
  {
    RootsAreLevelZero(t);
    UnderFirstMember(t, t.roots, |t.roots|, q);
    if i :| 0 <= i < |t.roots| && q in UnderSet(t, t.roots[i]) {
      assert t.roots[i] in t.roots;
      var k :| Climbs(t, t.roots[i], q, k);
      LevelBelow(t, t.roots[i], q, k, 0);
      assert Level(t, q, k);
    }
    if EndsAtRoot(t, q) {
      var d :| Level(t, q, d);
      var root := LevelHasRoot(t, q, d);
      assert Under(t, root, q) && root in t.roots;
      var i :| 0 <= i < |t.roots| && t.roots[i] == root;
      assert q in UnderSet(t, t.roots[i]);
    }
  }
}
