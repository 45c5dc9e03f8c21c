/** Where the written fingerprint is enough: traces of one root and its children. */
module ShallowForest {
  import opened Ordering
  import opened ParentChains
  import opened TraceForest
  import opened ForestSizes
  import opened ForestRenaming
  import opened Fingerprint
  import opened ForestFingerprints

  ghost predicate Flat(n: Node) {
    forall i :: 0 <= i < |n.children| ==> n.children[i].item.children == []
  }

  lemma {:induction false} LeavesSeparate(a: seq<Group<Node>>, b: seq<Group<Node>>)
    requires forall i :: 0 <= i < |a| ==> a[i].item.children == []
    requires forall i :: 0 <= i < |b| ==> b[i].item.children == []
    requires WrittenAll(a) == WrittenAll(b)
    ensures a == b
    decreases |a|
  {
    hide Head, Count, WrittenAll, Written;
    WrittenNone();
    if a != [] {
      FirstLeaf(a);
    }
    if b != [] {
      FirstLeaf(b);
    }
    if a != [] && b != [] {
      CountEnds(a[0].count, b[0].count, Head(a[0].item.span) + WrittenAll(a[1..]),
        Head(b[0].item.span) + WrittenAll(b[1..]));
      HeadEnds(a[0].item.span, b[0].item.span, WrittenAll(a[1..]), WrittenAll(b[1..]));
      LeavesSeparate(a[1..], b[1..]);
      assert a == [a[0]] + a[1..] && b == [b[0]] + b[1..];
    }
  }

  lemma FirstLeaf(a: seq<Group<Node>>)
    requires a != [] && a[0].item.children == []
    ensures WrittenAll(a) == Count(a[0].count) + (Head(a[0].item.span) + WrittenAll(a[1..]))
    ensures WrittenAll(a) != ""
  {
    hide Head, WrittenAll, Written, Digits;
    WrittenAllConcat([a[0]], a[1..]);
    WrittenOne(a[0]);
    WrittenIs(a[0].item);
    WrittenNone();
    assert a == [a[0]] + a[1..];
    assert Head(a[0].item.span) + "" == Head(a[0].item.span);
  }

  /** Nodes of at most two levels with the same written fingerprint are the same node. */
  lemma FlatNodesSeparate(a: Node, b: Node)
    requires Flat(a) && Flat(b) && Written(a) == Written(b)
    ensures a == b
  {
    hide Head, WrittenAll, Written;
    WrittenIs(a);
    WrittenIs(b);
    HeadEnds(a.span, b.span, WrittenAll(a.children), WrittenAll(b.children));
    LeavesSeparate(a.children, b.children);
  }

  /** A trace with one root, and every other span directly below it. */
  ghost predicate Star(p: Parents) {
    |Roots(p)| == 1 && Shallow(p, 2)
  }

  lemma NothingBelowChild(p: Parents, root: string, child: string)
    requires "" !in p && Shallow(p, 2) && root in p && child in p && p[child] == root
    ensures ChildIds(p, child) == []
  {
    hide ChildIds, Shallow;
    assert HasParent(p, child);
    forall k | k in p
      ensures p[k] != child
    {
      if p[k] == child {
        assert HasParent(p, k);
        var d := LevelOf(p, k, 2);
      }
    }
    NoChildIds(p, child);
  }

  lemma LevelOf(p: Parents, id: string, limit: nat) returns (d: nat)
    requires Shallow(p, limit) && id in p
    ensures d < limit && Level(p, id, d)
  {
    d :| 0 <= d < limit && Level(p, id, d);
  }

  lemma LeafTree(index: Index, id: string, fuel: nat, key: Node -> string)
    requires ChildIds(ParentsOf(index), id) == []
    ensures TreeOf(ParentsOf(index), id, fuel).children == []
    ensures Grouped(index, TreeOf(ParentsOf(index), id, fuel), key).children == []
    ensures Faithful(index, TreeOf(ParentsOf(index), id, fuel), key)
  {
    var t := TreeOf(ParentsOf(index), id, fuel);
    assert t.children == [];
    assert GroupedAll(index, [], key) == [];
  }

  /** The root's tree of a star: its node is flat and its children are told apart. */
  lemma StarTree(index: Index, root: string, fuel: nat)
    requires "" !in index && Shallow(ParentsOf(index), 2) && root in index && fuel > 0
    ensures Faithful(index, TreeOf(ParentsOf(index), root, fuel), Written)
    ensures Flat(Grouped(index, TreeOf(ParentsOf(index), root, fuel), Written))
  {
    hide Shallow, Written, Gather, ChildIds, Grouped, GroupedAll, Separates, Faithful, TreesOf, TreeOf;
    var p := ParentsOf(index);
    var ids := ChildIds(p, root);
    var trees := TreesOf(p, ids, fuel - 1);
    var nodes := GroupedAll(index, trees, Written);
    GroupedAt(index, trees, Written);
    forall i | 0 <= i < |trees|
      ensures nodes[i].children == [] && Faithful(index, trees[i], Written)
    {
      assert ids[i] in ids;
      NothingBelowChild(p, root, ids[i]);
      LeafTree(index, ids[i], fuel - 1, Written);
    }
    FlatSeparated(nodes);
    StarAssembled(index, root, fuel);
    GatheredLeaves(nodes);
  }

  lemma StarAssembled(index: Index, root: string, fuel: nat)
    requires fuel > 0
    requires var p := ParentsOf(index);
             var trees := TreesOf(p, ChildIds(p, root), fuel - 1);
             && Separates(Written, GroupedAll(index, trees, Written))
             && forall i :: 0 <= i < |trees| ==> Faithful(index, trees[i], Written)
    ensures Faithful(index, TreeOf(ParentsOf(index), root, fuel), Written)
    ensures var p := ParentsOf(index);
            var trees := TreesOf(p, ChildIds(p, root), fuel - 1);
            Grouped(index, TreeOf(p, root, fuel), Written).children ==
              Gather(GroupedAll(index, trees, Written), Written)
  {
    hide Written, Gather, Separates, ChildIds, GroupedAll, TreesOf;
    assert TreeOf(ParentsOf(index), root, fuel).children ==
           TreesOf(ParentsOf(index), ChildIds(ParentsOf(index), root), fuel - 1);
  }

  lemma FlatSeparated(nodes: seq<Node>)
    requires forall i :: 0 <= i < |nodes| ==> Flat(nodes[i])
    ensures Separates(Written, nodes)
  {
    hide Written, Flat;
    forall a, b | a in nodes && b in nodes && Written(a) == Written(b)
      ensures a == b
    {
      FlatNodesSeparate(a, b);
    }
  }

  lemma GatheredLeaves(nodes: seq<Node>)
    requires forall i :: 0 <= i < |nodes| ==> nodes[i].children == []
    ensures forall i :: 0 <= i < |Gather(nodes, Written)| ==> Gather(nodes, Written)[i].item.children == []
  {
    hide Written, Runs;
    var sorted := SortBy(nodes, Written);
    GroupsHold(sorted, Written);
    forall i | 0 <= i < |Gather(nodes, Written)|
      ensures Gather(nodes, Written)[i].item.children == []
    {
      var item := Gather(nodes, Written)[i].item;
      assert item in multiset(sorted);
      assert item in nodes;
    }
  }

  lemma StarTrace(index: Index) returns (n: Node)
    requires "" !in index && Star(ParentsOf(index))
    ensures FaithfulTrace(index, Written)
    ensures Flat(n) && TraceOf(index, Written).roots == [Group(1, n)]
  {
    hide Shallow, Written, Faithful, Flat, Grouped, Separates, Roots, FaithfulRoots, TreeOf, TraceOf;
    var p := ParentsOf(index);
    var root := Roots(p)[0];
    assert root in Roots(p) && Roots(p) == [root];
    StarTree(index, root, MAX_TRACE_DEPTH);
    n := Grouped(index, TreeOf(p, root, MAX_TRACE_DEPTH), Written);
    OneTree(index, root, MAX_TRACE_DEPTH);
    FlatSeparated([n]);
    OneTreeFaithful(index, TreeOf(p, root, MAX_TRACE_DEPTH));
    TraceRoots(index);
    GatherOne(n, Written);
  }

  lemma OneTree(index: Index, root: string, fuel: nat)
    ensures TreesOf(ParentsOf(index), [root], fuel) == [TreeOf(ParentsOf(index), root, fuel)]
    ensures GroupedAll(index, TreesOf(ParentsOf(index), [root], fuel), Written) ==
            [Grouped(index, TreeOf(ParentsOf(index), root, fuel), Written)]
  {
    hide Written, Grouped, TreeOf;
    var trees := TreesOf(ParentsOf(index), [root], fuel);
    GroupedAt(index, trees, Written);
  }

  lemma OneTreeFaithful(index: Index, t: Tree)
    requires Faithful(index, t, Written) && Separates(Written, [Grouped(index, t, Written)])
    ensures FaithfulRoots(index, [t], Written)
  {
    hide Written, Grouped, Separates, Faithful;
    GroupedAt(index, [t], Written);
    assert GroupedAll(index, [t], Written) == [Grouped(index, t, Written)];
  }

  lemma TraceRoots(index: Index)
    ensures var p := ParentsOf(index);
            TraceOf(index, Written).roots ==
              Gather(GroupedAll(index, TreesOf(p, Roots(p), MAX_TRACE_DEPTH), Written), Written)
  {
    hide Written, Gather, GroupedAll, TreesOf, Roots;
  }

  ghost predicate Stars(spans: seq<RawSpan>) {
    forall id :: id in TraceIds(spans) ==> Star(ParentsOf(IndexIn(spans, id)))
  }

  ghost predicate OneFlatRoot(t: Trace) {
    |t.roots| == 1 && t.roots[0].count == 1 && Flat(t.roots[0].item)
  }

  lemma FlatTracesSeparate(traces: seq<Trace>)
    requires forall i :: 0 <= i < |traces| ==> OneFlatRoot(traces[i])
    ensures Separates(WrittenTrace, traces)
  {
    hide WrittenTrace, OneFlatRoot;
    forall a, b | a in traces && b in traces && WrittenTrace(a) == WrittenTrace(b)
      ensures a == b
    {
      OneFlatTrace(a, b);
    }
  }

  lemma OneFlatTrace(a: Trace, b: Trace)
    requires OneFlatRoot(a) && OneFlatRoot(b) && WrittenTrace(a) == WrittenTrace(b)
    ensures a == b
  {
    hide WrittenAll, Written, Count, Flat;
    var s := WrittenTrace(a);
    assert s[0] == CoverageName(a.coverage)[0] == CoverageName(b.coverage)[0];
    AfterSame(CoverageName(a.coverage), WrittenAll(a.roots), WrittenAll(b.roots));
    var m, n := a.roots[0], b.roots[0];
    assert a.roots == [m] && b.roots == [n];
    WrittenOne(m);
    WrittenOne(n);
    CountEnds(m.count, n.count, Written(m.item), Written(n.item));
    FlatNodesSeparate(m.item, n.item);
  }

  /** When every trace is one root with its children, the written fingerprint suffices: the
      forest keeps its size and depends neither on names nor on order. One level more and
      it can do neither. */
  lemma StarForestIsCanonical(r: Renaming, a: seq<RawSpan>, b: seq<RawSpan>)
    requires Proper(r) && IsRenaming(r, a, b) && Acceptable(a) && Stars(a)
    ensures ForestSize(ForestOf(a, WRITTEN)) == |a|
    ensures Acceptable(b) && ForestOf(b, WRITTEN) == ForestOf(a, WRITTEN)
  {
    hide Written, WrittenTrace, Separates, FaithfulTrace, TraceOf, IndexIn, TraceIds, Star, ForestOf, ForestSize,
         IsRenaming,
         Proper, Identified, TraceAcceptable, OneFlatRoot, Flat, SortedKeys;
    forall id | id in TraceIds(a)
      ensures FaithfulTrace(IndexIn(a, id), Written) && OneFlatRoot(TraceOf(IndexIn(a, id), Written))
    {
      SpansInTrace(a, id);
      var n := StarTrace(IndexIn(a, id));
      OneRootGroup(TraceOf(IndexIn(a, id), Written), n);
    }
    var ids := SortedKeys(TraceIds(a));
    var traces := TracesOf(a, ids, Written);
    TracesAreImages(a, ids, Written);
    forall i | 0 <= i < |traces|
      ensures OneFlatRoot(traces[i])
    {
      assert ids[i] in ids;
    }
    FlatTracesSeparate(traces);
    FaithfulForestInSizes(a, WRITTEN);
    ForestSizeKept(a, WRITTEN);
    ForestForgetsNames(r, a, b, WRITTEN);
  }

  lemma OneRootGroup(t: Trace, n: Node)
    requires t.roots == [Group(1, n)] && Flat(n)
    ensures OneFlatRoot(t)
  {
  }
}
