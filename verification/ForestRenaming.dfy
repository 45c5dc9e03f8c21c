/** The grouped forest does not depend on the IDs of its spans or on their order. */
module ForestRenaming {
  import opened Ordering
  import opened ParentChains
  import opened TraceForest
  import opened ForestSizes

  // Span IDs are unique in their trace alone, so each trace has new span IDs of its own.
  datatype Renaming = Renaming(trace: string -> string, span: (string, string) -> string)

  ghost predicate Injective(f: string -> string) {
    forall a, b {:trigger f(a), f(b)} :: f(a) == f(b) ==> a == b
  }

  ghost predicate KeepsNonempty(f: string -> string) {
    forall a {:trigger f(a)} :: a != "" ==> f(a) != ""
  }

  function SpanIn(r: Renaming, traceId: string): string -> string {
    id => r.span(traceId, id)
  }

  /** Distinct IDs stay distinct and none becomes empty. */
  ghost predicate Proper(r: Renaming) {
    && Injective(r.trace) && KeepsNonempty(r.trace)
    && forall t {:trigger SpanIn(r, t)} :: Injective(SpanIn(r, t)) && KeepsNonempty(SpanIn(r, t))
  }

  // No parent stays no parent.
  function NewParent(f: string -> string, id: string): string {
    if id == "" then "" else f(id)
  }

  function Renamed(r: Renaming, s: RawSpan): RawSpan {
    RawSpan(r.trace(s.traceId), r.span(s.traceId, s.spanId), NewParent(SpanIn(r, s.traceId), s.parentId), s.semantic)
  }

  /** The second list holds the renamed spans of the first in any order. */
  ghost predicate IsRenaming(r: Renaming, a: seq<RawSpan>, b: seq<RawSpan>) {
    multiset(b) == multiset(Images(a, s => Renamed(r, s)))
  }

  // ---- One trace ----

  ghost predicate RenamesParents(f: string -> string, p: Parents, q: Parents) {
    && Injective(f) && KeepsNonempty(f)
    && (forall id :: id in p ==> id != "" && f(id) in q && q[f(id)] == NewParent(f, p[id]))
    && (forall id :: id in q ==> exists was :: was in p && f(was) == id)
  }

  lemma SameHasParent(f: string -> string, p: Parents, q: Parents, id: string)
    requires RenamesParents(f, p, q) && id in p
    ensures HasParent(q, f(id)) <==> HasParent(p, id)
  {
    if HasParent(q, f(id)) {
      var was :| was in p && f(was) == q[f(id)];
      assert f(was) == f(p[id]);
    }
  }

  lemma {:induction false} SameLevel(f: string -> string, p: Parents, q: Parents, id: string, d: nat)
    requires RenamesParents(f, p, q) && id in p
    ensures Level(q, f(id), d) <==> Level(p, id, d)
    decreases d
  {
    hide RenamesParents;
    RenamedParent(f, p, q, id);
    SameHasParent(f, p, q, id);
    if d > 0 && HasParent(p, id) {
      SameLevel(f, p, q, p[id], d - 1);
    }
  }

  lemma RenamedParent(f: string -> string, p: Parents, q: Parents, id: string)
    requires RenamesParents(f, p, q) && id in p
    ensures f(id) in q && q[f(id)] == NewParent(f, p[id])
  {
  }

  lemma OldName(f: string -> string, p: Parents, q: Parents, id: string) returns (was: string)
    requires RenamesParents(f, p, q) && id in q
    ensures was in p && f(was) == id
  {
    was :| was in p && f(was) == id;
  }

  lemma SameAcyclic(f: string -> string, p: Parents, q: Parents)
    requires RenamesParents(f, p, q) && Acyclic(p)
    ensures Acyclic(q)
  {
    hide RenamesParents, Level;
    forall id | id in q
      ensures HasLevel(q, id)
    {
      var was := OldName(f, p, q, id);
      var d: nat :| Level(p, was, d);
      SameLevel(f, p, q, was, d);
    }
  }

  lemma SameShallow(f: string -> string, p: Parents, q: Parents, limit: nat)
    requires RenamesParents(f, p, q) && Shallow(p, limit)
    ensures Shallow(q, limit)
  {
    hide RenamesParents, Level;
    forall id | id in q
      ensures exists d :: 0 <= d < limit && Level(q, id, d)
    {
      var was := OldName(f, p, q, id);
      var d :| 0 <= d < limit && Level(p, was, d);
      SameLevel(f, p, q, was, d);
    }
  }

  lemma SameExplicitRoot(f: string -> string, p: Parents, q: Parents)
    requires RenamesParents(f, p, q) && OneExplicitRoot(p)
    ensures OneExplicitRoot(q)
  {
    forall a, b | a in q && b in q && q[a] == "" && q[b] == ""
      ensures a == b
    {
      var x := OldName(f, p, q, a);
      var y := OldName(f, p, q, b);
      assert p[x] == "" && p[y] == "";
    }
  }

  lemma SameParentMissing(f: string -> string, p: Parents, q: Parents)
    requires RenamesParents(f, p, q)
    ensures ParentMissing(q) <==> ParentMissing(p)
  {
    if ParentMissing(p) {
      var id :| id in p && p[id] != "" && p[id] !in p;
      SameHasParent(f, p, q, id);
      assert f(id) in q && q[f(id)] != "" && q[f(id)] !in q;
    }
    if ParentMissing(q) {
      var id :| id in q && q[id] != "" && q[id] !in q;
      var was := OldName(f, p, q, id);
      SameHasParent(f, p, q, was);
      assert was in p && p[was] != "" && p[was] !in p;
    }
  }

  lemma SameAcceptable(f: string -> string, p: Parents, q: Parents)
    requires RenamesParents(f, p, q) && TraceAcceptable(p)
    ensures TraceAcceptable(q)
  {
    hide RenamesParents, Acyclic, Shallow, OneExplicitRoot;
    SameAcyclic(f, p, q);
    SameShallow(f, p, q, MAX_TRACE_DEPTH);
    SameExplicitRoot(f, p, q);
  }

  lemma SameChildren(f: string -> string, p: Parents, q: Parents, id: string)
    requires RenamesParents(f, p, q) && id in p
    ensures multiset(ChildIds(q, f(id))) == multiset(Images(ChildIds(p, id), f))
  {
    hide RenamesParents, ChildIds;
    var cs, ds := ChildIds(p, id), ChildIds(q, f(id));
    var images := Images(cs, f);
    InjectiveRenaming(f, p, q);
    DistinctImages(cs, f);
    forall d
      ensures d in ds <==> d in images
    {
      if d in ds {
        var was := OldName(f, p, q, d);
        SameParent(f, p, q, was, id);
        assert was in cs;
        var i :| 0 <= i < |cs| && cs[i] == was;
        assert images[i] == d;
      }
      if d in images {
        var i :| 0 <= i < |images| && images[i] == d;
        assert cs[i] in cs;
        SameParent(f, p, q, cs[i], id);
      }
    }
    DistinctSame(ds, images);
  }

  lemma SameParent(f: string -> string, p: Parents, q: Parents, child: string, id: string)
    requires RenamesParents(f, p, q) && child in p && id in p
    ensures f(child) in q && (q[f(child)] == f(id) <==> p[child] == id)
  {
    assert id != "" && f(id) != "";
  }

  lemma SameRoots(f: string -> string, p: Parents, q: Parents)
    requires RenamesParents(f, p, q)
    ensures multiset(Roots(q)) == multiset(Images(Roots(p), f))
  {
    hide RenamesParents, HasParent, Roots, Injective;
    var cs, ds := Roots(p), Roots(q);
    var images := Images(cs, f);
    InjectiveRenaming(f, p, q);
    DistinctImages(cs, f);
    forall d
      ensures d in ds <==> d in images
    {
      if d in ds {
        var was := OldName(f, p, q, d);
        SameHasParent(f, p, q, was);
        assert was in cs;
        var i :| 0 <= i < |cs| && cs[i] == was;
        assert images[i] == d;
      }
      if d in images {
        var i :| 0 <= i < |images| && images[i] == d;
        assert cs[i] in cs;
        SameHasParent(f, p, q, cs[i]);
        RenamedParent(f, p, q, cs[i]);
      }
    }
    DistinctSame(ds, images);
  }

  lemma InjectiveRenaming(f: string -> string, p: Parents, q: Parents)
    requires RenamesParents(f, p, q)
    ensures Injective(f)
  {
  }

  lemma DistinctImages(s: seq<string>, f: string -> string)
    requires Distinct(s) && Injective(f)
    ensures Distinct(Images(s, f))
  {
  }

  // ---- Grouped trees ----

  ghost predicate RenamesIndex(f: string -> string, a: Index, b: Index) {
    && RenamesParents(f, ParentsOf(a), ParentsOf(b))
    && (forall id :: id in a ==> SemanticOf(b, f(id)) == SemanticOf(a, id))
  }

  function NodeAt(index: Index, id: string, fuel: nat, key: Node -> string): Node {
    Grouped(index, TreeOf(ParentsOf(index), id, fuel), key)
  }

  function NodesAt(index: Index, ids: seq<string>, fuel: nat, key: Node -> string): (nodes: seq<Node>) {
    GroupedAll(index, TreesOf(ParentsOf(index), ids, fuel), key)
  }

  lemma NodesAreImages(index: Index, ids: seq<string>, fuel: nat, key: Node -> string)
    ensures NodesAt(index, ids, fuel, key) == Images(ids, id => NodeAt(index, id, fuel, key))
  {
    hide Grouped, TreeOf;
    GroupedAt(index, TreesOf(ParentsOf(index), ids, fuel), key);
  }

  /** Spans whose nodes survive the renaming one by one are grouped in the same way. */
  lemma SameGroups(f: string -> string, a: Index, b: Index, ids: seq<string>, others: seq<string>, fuel: nat,
                   key: Node -> string)
    requires multiset(others) == multiset(Images(ids, f))
    requires forall id :: id in ids ==> NodeAt(b, f(id), fuel, key) == NodeAt(a, id, fuel, key)
    requires Separates(key, NodesAt(a, ids, fuel, key))
    ensures Gather(NodesAt(b, others, fuel, key), key) == Gather(NodesAt(a, ids, fuel, key), key)
  {
    hide NodeAt, Separates, NodesAt, Runs;
    var was, now := id => NodeAt(a, id, fuel, key), id => NodeAt(b, id, fuel, key);
    NodesAreImages(a, ids, fuel, key);
    NodesAreImages(b, others, fuel, key);
    SameMultisetOfImages(others, Images(ids, f), now);
    forall i | 0 <= i < |ids|
      ensures now(f(ids[i])) == was(ids[i])
    {
      assert ids[i] in ids;
    }
    assert Images(Images(ids, f), now) == Images(ids, was);
    SortForgetsOrder(NodesAt(a, ids, fuel, key), NodesAt(b, others, fuel, key), key);
  }

  lemma {:induction false} SameNode(f: string -> string, a: Index, b: Index, id: string, fuel: nat, key: Node -> string)
    requires RenamesIndex(f, a, b) && id in a && Faithful(a, TreeOf(ParentsOf(a), id, fuel), key)
    ensures NodeAt(b, f(id), fuel, key) == NodeAt(a, id, fuel, key)
    decreases fuel
  {
    hide RenamesIndex, Separates, ChildIds, Faithful, NodeAt, NodesAt, ParentsOf, TreeOf;
    if fuel == 0 {
      RenamedSpan(f, a, b, id);
      NoChildren(a, id, key);
      NoChildren(b, f(id), key);
    } else {
      FaithfulBelow(a, id, fuel, key);
      forall child | child in ChildIds(ParentsOf(a), id)
        ensures NodeAt(b, f(child), fuel - 1, key) == NodeAt(a, child, fuel - 1, key)
      {
        SameNode(f, a, b, child, fuel - 1, key);
      }
      SameNodeAbove(f, a, b, id, fuel, key);
    }
  }

  lemma SameNodeAbove(f: string -> string, a: Index, b: Index, id: string, fuel: nat, key: Node -> string)
    requires RenamesIndex(f, a, b) && id in a && fuel > 0
    requires Separates(key, NodesAt(a, ChildIds(ParentsOf(a), id), fuel - 1, key))
    requires forall child :: child in ChildIds(ParentsOf(a), id) ==>
               NodeAt(b, f(child), fuel - 1, key) == NodeAt(a, child, fuel - 1, key)
    ensures NodeAt(b, f(id), fuel, key) == NodeAt(a, id, fuel, key)
  {
    hide RenamesIndex, RenamesParents, Gather, Separates, ChildIds, NodeAt, NodesAt, SemanticOf, ParentsOf, TreeOf;
    RenamedSpan(f, a, b, id);
    NodeAtStep(a, id, fuel, key);
    NodeAtStep(b, f(id), fuel, key);
    SameChildren(f, ParentsOf(a), ParentsOf(b), id);
    SameGroups(f, a, b, ChildIds(ParentsOf(a), id), ChildIds(ParentsOf(b), f(id)), fuel - 1, key);
  }

  lemma RenamedSpan(f: string -> string, a: Index, b: Index, id: string)
    requires RenamesIndex(f, a, b) && id in a
    ensures RenamesParents(f, ParentsOf(a), ParentsOf(b)) && SemanticOf(b, f(id)) == SemanticOf(a, id)
  {
  }

  lemma NoChildren(index: Index, id: string, key: Node -> string)
    ensures NodeAt(index, id, 0, key) == Node(SemanticOf(index, id), Gather([], key))
  {
    hide Gather;
    assert GroupedAll(index, [], key) == [];
  }

  lemma NodeAtStep(index: Index, id: string, fuel: nat, key: Node -> string)
    requires fuel > 0
    ensures NodeAt(index, id, fuel, key) ==
            Node(SemanticOf(index, id), Gather(NodesAt(index, ChildIds(ParentsOf(index), id), fuel - 1, key), key))
  {
    hide Gather, GroupedAll, TreesOf, SemanticOf;
  }

  lemma FaithfulBelow(index: Index, id: string, fuel: nat, key: Node -> string)
    requires fuel > 0 && Faithful(index, TreeOf(ParentsOf(index), id, fuel), key)
    ensures var ids := ChildIds(ParentsOf(index), id);
            && Separates(key, NodesAt(index, ids, fuel - 1, key))
            && forall child :: child in ids ==> Faithful(index, TreeOf(ParentsOf(index), child, fuel - 1), key)
  {
    hide Separates, GroupedAll;
    var p := ParentsOf(index);
    var ids := ChildIds(p, id);
    assert TreeOf(p, id, fuel).children == TreesOf(p, ids, fuel - 1);
    forall child | child in ids
      ensures Faithful(index, TreeOf(p, child, fuel - 1), key)
    {
      var i :| 0 <= i < |ids| && ids[i] == child;
      assert TreeOf(p, id, fuel).children[i] == TreeOf(p, child, fuel - 1);
    }
  }

  /** A trace keeps its grouped form under renaming. */
  lemma SameTrace(f: string -> string, a: Index, b: Index, key: Node -> string)
    requires RenamesIndex(f, a, b) && FaithfulTrace(a, key)
    ensures TraceOf(b, key) == TraceOf(a, key)
  {
    hide Gather, Separates, ParentMissing, RenamesParents, NodeAt, Faithful, SemanticOf, Roots;
    var p, q := ParentsOf(a), ParentsOf(b);
    SameParentMissing(f, p, q);
    SameRoots(f, p, q);
    RootsFaithful(a, key);
    forall root | root in Roots(p)
      ensures NodeAt(b, f(root), MAX_TRACE_DEPTH, key) == NodeAt(a, root, MAX_TRACE_DEPTH, key)
    {
      SameNode(f, a, b, root, MAX_TRACE_DEPTH, key);
    }
    SameGroups(f, a, b, Roots(p), Roots(q), MAX_TRACE_DEPTH, key);
  }

  lemma RootsFaithful(index: Index, key: Node -> string)
    requires FaithfulTrace(index, key)
    ensures var p := ParentsOf(index);
            && Separates(key, NodesAt(index, Roots(p), MAX_TRACE_DEPTH, key))
            && forall root :: root in Roots(p) ==> Faithful(index, TreeOf(p, root, MAX_TRACE_DEPTH), key)
  {
    hide Separates, GroupedAll, Faithful, TreeOf, Roots;
    var p := ParentsOf(index);
    var ids := Roots(p);
    forall root | root in ids
      ensures Faithful(index, TreeOf(p, root, MAX_TRACE_DEPTH), key)
    {
      var i :| 0 <= i < |ids| && ids[i] == root;
      assert TreesOf(p, ids, MAX_TRACE_DEPTH)[i] == TreeOf(p, root, MAX_TRACE_DEPTH);
    }
  }

  // ---- The forest ----

  function Identity(s: RawSpan): (string, string) {
    (s.traceId, s.spanId)
  }

  lemma {:induction false} OnceDistinct<T(!new)>(s: seq<T>)
    requires forall x :: multiset(s)[x] <= 1
    ensures Distinct(s)
  {
    if s != [] {
      var n := |s| - 1;
      assert s == s[..n] + [s[n]];
      forall x
        ensures multiset(s[..n])[x] <= 1
      {
        assert multiset(s)[x] <= 1;
      }
      OnceDistinct(s[..n]);
      assert multiset(s)[s[n]] <= 1;
      assert s[n] !in multiset(s[..n]);
      forall i | 0 <= i < n
        ensures s[i] != s[n]
      {
        assert s[i] in multiset(s[..n]);
      }
    }
  }

  lemma SameMembers(r: Renaming, a: seq<RawSpan>, b: seq<RawSpan>)
    requires IsRenaming(r, a, b)
    ensures forall s :: s in a ==> Renamed(r, s) in b
    ensures forall s :: s in b ==> exists was :: was in a && Renamed(r, was) == s
  {
    hide Renamed;
    var images := Images(a, s => Renamed(r, s));
    forall s | s in a
      ensures Renamed(r, s) in b
    {
      var i :| 0 <= i < |a| && a[i] == s;
      assert images[i] in multiset(b);
    }
    forall s | s in b
      ensures exists was :: was in a && Renamed(r, was) == s
    {
      assert s in multiset(images);
      var i :| 0 <= i < |images| && images[i] == s;
      assert a[i] in a && Renamed(r, a[i]) == s;
    }
  }

  lemma RenamedIdentity(r: Renaming, s: RawSpan, t: RawSpan)
    requires Proper(r)
    ensures Identity(Renamed(r, s)) == Identity(Renamed(r, t)) ==> Identity(s) == Identity(t)
    ensures s.traceId != "" && s.spanId != "" ==> Renamed(r, s).traceId != "" && Renamed(r, s).spanId != ""
  {
    assert r.span(s.traceId, s.spanId) == SpanIn(r, s.traceId)(s.spanId);
    assert r.span(t.traceId, t.spanId) == SpanIn(r, t.traceId)(t.spanId);
  }

  lemma SameIdentified(r: Renaming, a: seq<RawSpan>, b: seq<RawSpan>)
    requires Proper(r) && IsRenaming(r, a, b) && Identified(a)
    ensures Identified(b)
  {
    hide Proper, Renamed;
    SameMembers(r, a, b);
    var images := Images(a, s => Renamed(r, s));
    SameMultisetOfImages(b, images, Identity);
    forall i, j | 0 <= i < j < |images|
      ensures Images(images, Identity)[i] != Images(images, Identity)[j]
    {
      RenamedIdentity(r, a[i], a[j]);
    }
    DistinctOnce(Images(images, Identity));
    OnceDistinct(Images(b, Identity));
    forall i, j | 0 <= i < j < |b|
      ensures b[i].traceId != b[j].traceId || b[i].spanId != b[j].spanId
    {
      assert Images(b, Identity)[i] != Images(b, Identity)[j];
    }
    forall s | s in b
      ensures s.traceId != "" && s.spanId != ""
    {
      var was :| was in a && Renamed(r, was) == s;
      RenamedIdentity(r, was, was);
    }
  }

  lemma RenamedFields(r: Renaming, s: RawSpan)
    ensures var f := SpanIn(r, s.traceId);
            Renamed(r, s) == RawSpan(r.trace(s.traceId), f(s.spanId), NewParent(f, s.parentId), s.semantic)
  {
  }

  lemma ProperTrace(r: Renaming, traceId: string)
    requires Proper(r)
    ensures Injective(r.trace) && Injective(SpanIn(r, traceId)) && KeepsNonempty(SpanIn(r, traceId))
  {
  }

  /** A renaming of the spans renames the index of every trace. */
  lemma SameIndex(r: Renaming, a: seq<RawSpan>, b: seq<RawSpan>, traceId: string)
    requires Proper(r) && IsRenaming(r, a, b) && Identified(a) && Identified(b)
    ensures RenamesIndex(SpanIn(r, traceId), IndexIn(a, traceId), IndexIn(b, r.trace(traceId)))
  {
    hide IndexIn, Identified, IsRenaming, Proper, Renamed, SpanIn;
    SameMembers(r, a, b);
    IndexHolds(a, traceId);
    IndexHolds(b, r.trace(traceId));
    ProperTrace(r, traceId);
    var x, y, f := IndexIn(a, traceId), IndexIn(b, r.trace(traceId)), SpanIn(r, traceId);
    NamedSpans(a);
    forall id | id in x
      ensures id != "" && f(id) in y && y[f(id)].parentId == NewParent(f, x[id].parentId) &&
              y[f(id)].semantic == x[id].semantic
    {
      RenamedFields(r, x[id]);
      assert Renamed(r, x[id]) in b;
    }
    forall id | id in y
      ensures exists was :: was in x && f(was) == id
    {
      var s :| s in a && Renamed(r, s) == y[id];
      RenamedFields(r, s);
      assert s.traceId == traceId;
      assert s.spanId in x;
    }
  }

  lemma NamedSpans(spans: seq<RawSpan>)
    requires Identified(spans)
    ensures forall s :: s in spans ==> s.traceId != "" && s.spanId != ""
  {
  }

  lemma SameTraceIds(r: Renaming, a: seq<RawSpan>, b: seq<RawSpan>)
    requires Proper(r) && IsRenaming(r, a, b)
    ensures forall id :: id in TraceIds(a) ==> r.trace(id) in TraceIds(b)
    ensures forall id :: id in TraceIds(b) ==> exists was :: was in TraceIds(a) && r.trace(was) == id
    ensures multiset(SortedKeys(TraceIds(b))) == multiset(Images(SortedKeys(TraceIds(a)), r.trace))
  {
    hide SortedKeys, TraceIds, IsRenaming;
    SameMembers(r, a, b);
    forall id | id in TraceIds(a)
      ensures r.trace(id) in TraceIds(b)
    {
      var i :| 0 <= i < |a| && a[i].traceId == id;
      assert Renamed(r, a[i]) in b;
    }
    forall id | id in TraceIds(b)
      ensures exists was :: was in TraceIds(a) && r.trace(was) == id
    {
      var i :| 0 <= i < |b| && b[i].traceId == id;
      assert b[i] in b;
      var s :| s in a && Renamed(r, s) == b[i];
      assert s.traceId in TraceIds(a) && r.trace(s.traceId) == id;
    }
    var ids, others := SortedKeys(TraceIds(a)), SortedKeys(TraceIds(b));
    var images := Images(ids, r.trace);
    DistinctImages(ids, r.trace);
    forall id
      ensures id in others <==> id in images
    {
      if id in others {
        var was :| was in TraceIds(a) && r.trace(was) == id;
        assert was in ids;
        var i :| 0 <= i < |ids| && ids[i] == was;
        assert images[i] == id;
      }
      if id in images {
        var i :| 0 <= i < |images| && images[i] == id;
        assert ids[i] in ids;
      }
    }
    DistinctSame(others, images);
  }

  lemma TracesAreImages(spans: seq<RawSpan>, ids: seq<string>, key: Node -> string)
    ensures TracesOf(spans, ids, key) == Images(ids, id => TraceOf(IndexIn(spans, id), key))
  {
    hide TraceOf, IndexIn;
    if ids != [] {
      var n := |ids| - 1;
      TracesAreImages(spans, ids[..n], key);
      assert ids == ids[..n] + [ids[n]];
    }
  }

  lemma SameTraces(r: Renaming, a: seq<RawSpan>, b: seq<RawSpan>, key: Node -> string)
    requires Proper(r) && IsRenaming(r, a, b) && Identified(a) && Identified(b)
    requires forall id :: id in TraceIds(a) ==> FaithfulTrace(IndexIn(a, id), key)
    ensures multiset(TracesOf(b, SortedKeys(TraceIds(b)), key)) == multiset(TracesOf(a, SortedKeys(TraceIds(a)), key))
  {
    hide TraceOf, IndexIn, FaithfulTrace, Proper, IsRenaming, Identified, SortedKeys, TraceIds, TracesOf, RenamesIndex;
    var ids, others := SortedKeys(TraceIds(a)), SortedKeys(TraceIds(b));
    var was, now := id => TraceOf(IndexIn(a, id), key), id => TraceOf(IndexIn(b, id), key);
    TracesAreImages(a, ids, key);
    TracesAreImages(b, others, key);
    SameTraceIds(r, a, b);
    SameMultisetOfImages(others, Images(ids, r.trace), now);
    forall i | 0 <= i < |ids|
      ensures now(r.trace(ids[i])) == was(ids[i])
    {
      assert ids[i] in ids;
      SameIndex(r, a, b, ids[i]);
      SameTrace(SpanIn(r, ids[i]), IndexIn(a, ids[i]), IndexIn(b, r.trace(ids[i])), key);
    }
    assert Images(Images(ids, r.trace), now) == Images(ids, was);
  }

  /** Renaming the spans or changing their order keeps a list of spans acceptable. */
  lemma AcceptanceForgetsNames(r: Renaming, a: seq<RawSpan>, b: seq<RawSpan>)
    requires Proper(r) && IsRenaming(r, a, b) && Acceptable(a)
    ensures Acceptable(b)
  {
    hide TraceAcceptable, IndexIn, Identified, Proper, IsRenaming, SortedKeys, TraceIds, RenamesIndex, SpanIn;
    SameIdentified(r, a, b);
    SameTraceIds(r, a, b);
    forall id | id in TraceIds(b)
      ensures TraceAcceptable(ParentsOf(IndexIn(b, id)))
    {
      var was :| was in TraceIds(a) && r.trace(was) == id;
      SameIndex(r, a, b, was);
      RenamedParents(SpanIn(r, was), IndexIn(a, was), IndexIn(b, id));
      SameAcceptable(SpanIn(r, was), ParentsOf(IndexIn(a, was)), ParentsOf(IndexIn(b, id)));
    }
  }

  /** Renaming the spans or changing their order leaves the forest unchanged wherever
      fingerprints tell nodes and traces apart. */
  lemma ForestForgetsNames(r: Renaming, a: seq<RawSpan>, b: seq<RawSpan>, keys: Keys)
    requires Proper(r) && IsRenaming(r, a, b) && Acceptable(a) && FaithfulForest(a, keys)
    ensures Acceptable(b) && ForestOf(b, keys) == ForestOf(a, keys)
  {
    hide FaithfulTrace, TraceAcceptable, TracesOf, Identified, Proper, IsRenaming, Separates, SortedKeys, TraceIds,
         Runs;
    AcceptanceForgetsNames(r, a, b);
    SameTraces(r, a, b, keys.node);
    SortForgetsOrder(TracesOf(a, SortedKeys(TraceIds(a)), keys.node), TracesOf(b, SortedKeys(TraceIds(b)), keys.node),
      keys.trace);
  }

  lemma RenamedParents(f: string -> string, a: Index, b: Index)
    requires RenamesIndex(f, a, b)
    ensures RenamesParents(f, ParentsOf(a), ParentsOf(b))
  {
  }
}
