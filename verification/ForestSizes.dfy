/** What a successful build keeps: every span in one place, and the number of spans. */
module ForestSizes {
  import opened Basics
  import opened Grouping
  import opened Ordering
  import opened ParentChains
  import opened TraceForest

  // ---- Placement ----

  /** The index of a trace holds exactly its spans, under their IDs. */
  lemma {:induction false} IndexHolds(spans: seq<RawSpan>, traceId: string)
    requires Identified(spans)
    ensures var index := IndexIn(spans, traceId);
            && (forall s :: s in spans && s.traceId == traceId ==> s.spanId in index && index[s.spanId] == s)
            && (forall id :: id in index ==>
               index[id] in spans && index[id].traceId == traceId && index[id].spanId == id)
  {
    if spans != [] {
      var n := |spans| - 1;
      IdentifiedPrefix(spans, n);
      IndexHolds(spans[..n], traceId);
      IndexInStep(spans, traceId);
      forall s | s in spans
        ensures s in spans[..n] || s == spans[n]
        ensures s in spans[..n] && s.traceId == spans[n].traceId ==> s.spanId != spans[n].spanId
      {
      }
    }
  }

  lemma IndexInStep(spans: seq<RawSpan>, traceId: string)
    requires spans != []
    ensures var n := |spans| - 1;
            IndexIn(spans, traceId) ==
            if spans[n].traceId == traceId then IndexIn(spans[..n], traceId)[spans[n].spanId := spans[n]]
            else IndexIn(spans[..n], traceId)
  {
    var n := |spans| - 1;
    if spans[n].traceId == traceId {
      assert OfTrace(spans, traceId)[..|OfTrace(spans[..n], traceId)|] == OfTrace(spans[..n], traceId);
    }
  }

  /** After a successful build every span of a trace stands in exactly one tree, under its
      own parent, and no tree has more than 128 levels. */
  lemma EverySpanPlaced(spans: seq<RawSpan>, traceId: string)
    requires Acceptable(spans) && traceId in TraceIds(spans)
    ensures var p := ParentsOf(IndexIn(spans, traceId));
            var trees := TreesOf(p, Roots(p), MAX_TRACE_DEPTH);
            && IdsOfAll(trees) == multiset(p.Keys)
            && (forall s :: s in spans && s.traceId == traceId ==> s.spanId in p && p[s.spanId] == s.parentId)
            && (forall i :: 0 <= i < |trees| ==> UnderParent(p, trees[i]) && Height(trees[i]) <= MAX_TRACE_DEPTH)
  {
    hide Identified, IndexIn, TreesOf, IdsOfAll, Acyclic, Shallow, RootsFit, Fits, Roots, TraceIds;
    var index := IndexIn(spans, traceId);
    var p := ParentsOf(index);
    IndexHolds(spans, traceId);
    SpansInTrace(spans, traceId);
    RootsFitIffShallow(p, MAX_TRACE_DEPTH);
    TreesPartitionTrace(p, MAX_TRACE_DEPTH);
    var trees := TreesOf(p, Roots(p), MAX_TRACE_DEPTH);
    forall i | 0 <= i < |trees|
      ensures UnderParent(p, trees[i]) && Height(trees[i]) <= MAX_TRACE_DEPTH
    {
      RootFits(p, i, MAX_TRACE_DEPTH);
      TreeShape(p, Roots(p)[i], MAX_TRACE_DEPTH);
    }
  }

  lemma RootFits(p: Parents, i: nat, limit: nat)
    requires RootsFit(p, limit) && i < |Roots(p)|
    ensures Fits(p, Roots(p)[i], limit)
  {
    assert Roots(p)[i] in Roots(p);
  }

  // ---- Sizes ----

  /** The number of spans a grouped node stands for. */
  function NodeSize(n: Node): nat {
    1 + GroupsSize(n.children)
  }

  function GroupsSize(groups: seq<Group<Node>>): nat {
    if groups == [] then 0
    else
      var last := groups[|groups| - 1];
      assert last.item < last;
      GroupsSize(groups[..|groups| - 1]) + Times(NodeSize(last.item), last.count)
  }

  function TraceSize(t: Trace): nat {
    GroupsSize(t.roots)
  }

  function ForestSize(forest: seq<Group<Trace>>): nat {
    Weight(forest, TraceSize)
  }

  lemma {:induction false} GroupsSizeIsWeight(groups: seq<Group<Node>>)
    ensures GroupsSize(groups) == Weight(groups, NodeSize)
  {
    hide NodeSize;
    if groups != [] {
      GroupsSizeIsWeight(groups[..|groups| - 1]);
    }
  }

  /** Wherever siblings have the same fingerprint they are the same node. */
  ghost predicate Faithful(index: Index, t: Tree, key: Node -> string) {
    && Separates(key, GroupedAll(index, t.children, key))
    && forall i :: 0 <= i < |t.children| ==> Faithful(index, t.children[i], key)
  }

  ghost predicate FaithfulRoots(index: Index, trees: seq<Tree>, key: Node -> string) {
    && Separates(key, GroupedAll(index, trees, key))
    && forall i :: 0 <= i < |trees| ==> Faithful(index, trees[i], key)
  }

  function TreeSize(t: Tree): nat {
    |Ids(t)|
  }

  /** Wherever siblings have the same fingerprint the trees below them are of the same size. */
  ghost predicate SizeFaithful(index: Index, t: Tree, key: Node -> string) {
    && WeighAlike(GroupedAll(index, t.children, key), key, t.children, TreeSize)
    && forall i :: 0 <= i < |t.children| ==> SizeFaithful(index, t.children[i], key)
  }

  ghost predicate SizeFaithfulRoots(index: Index, trees: seq<Tree>, key: Node -> string) {
    && WeighAlike(GroupedAll(index, trees, key), key, trees, TreeSize)
    && forall i :: 0 <= i < |trees| ==> SizeFaithful(index, trees[i], key)
  }

  lemma GatherKeepsWeight<T(!new)>(items: seq<T>, key: T -> string, size: T -> nat)
    requires SeparatesSizes(key, size, items)
    ensures Weight(Gather(items, key), size) == Sum(items, size)
  {
    hide Runs, Weight, Sum, Ascending;
    SortHolds(items, key);
    assert SeparatesSizes(key, size, SortBy(items, key));
    WeightKept(SortBy(items, key), key, size);
    SumOfSame(SortBy(items, key), items, size);
  }

  lemma {:induction false} SizeKept(index: Index, t: Tree, key: Node -> string)
    requires SizeFaithful(index, t, key)
    ensures NodeSize(Grouped(index, t, key)) == TreeSize(t)
    decreases t, 1
  {
    hide Gather, WeighAlike, GroupsSize, Ids, IdsOfAll;
    SizesKept(index, t.children, key);
    IdsSize(t);
  }

  lemma IdsSize(t: Tree)
    ensures |Ids(t)| == 1 + |IdsOfAll(t.children)|
  {
    hide IdsOfAll;
    assert Ids(t) == multiset{t.id} + IdsOfAll(t.children);
  }

  /** Grouping a level keeps the number of spans below it. */
  lemma {:induction false} SizesKept(index: Index, trees: seq<Tree>, key: Node -> string)
    requires SizeFaithfulRoots(index, trees, key)
    ensures GroupsSize(Gather(GroupedAll(index, trees, key), key)) == |IdsOfAll(trees)|
    decreases trees, 0
  {
    hide WeighAlike, Gather, GroupsSize, NodeSize, Ids, IdsOfAll, Grouped, TreeSize;
    var nodes := GroupedAll(index, trees, key);
    GroupsSizeIsWeight(Gather(nodes, key));
    GroupedAt(index, trees, key);
    forall i | 0 <= i < |trees|
      ensures NodeSize(nodes[i]) == TreeSize(trees[i])
    {
      SizeKept(index, trees[i], key);
    }
    AlikeSeparates(nodes, key, NodeSize, trees, TreeSize);
    GatherKeepsWeight(nodes, key, NodeSize);
    SumsCompare(nodes, NodeSize, trees, TreeSize);
    SumOfSizes(trees);
  }

  lemma AlikeSeparates<T(!new), U(!new)>(items: seq<U>, key: U -> string, size: U -> nat, parts: seq<T>,
                                         whole: T -> nat)
    requires |items| == |parts| && WeighAlike(items, key, parts, whole)
    requires forall i :: 0 <= i < |parts| ==> size(items[i]) == whole(parts[i])
    ensures SeparatesSizes(key, size, items)
  {
    forall x, y | x in items && y in items && key(x) == key(y)
      ensures size(x) == size(y)
    {
      var i :| 0 <= i < |items| && items[i] == x;
      var j :| 0 <= j < |items| && items[j] == y;
    }
  }

  lemma {:induction false} SumOfSizes(trees: seq<Tree>)
    ensures Sum(trees, TreeSize) == |IdsOfAll(trees)|
  {
    hide Ids;
    if trees != [] {
      var n := |trees| - 1;
      SumOfSizes(trees[..n]);
      assert IdsOfAll(trees) == IdsOfAll(trees[..n]) + Ids(trees[n]);
    }
  }

  /** Telling siblings apart tells their sizes apart. */
  lemma {:induction false} FaithfulInSizes(index: Index, t: Tree, key: Node -> string)
    requires Faithful(index, t, key)
    ensures SizeFaithful(index, t, key)
    decreases t, 1
  {
    hide Separates, WeighAlike;
    FaithfulRootsInSizes(index, t.children, key);
  }

  lemma {:induction false} FaithfulRootsInSizes(index: Index, trees: seq<Tree>, key: Node -> string)
    requires FaithfulRoots(index, trees, key)
    ensures SizeFaithfulRoots(index, trees, key)
    decreases trees, 0
  {
    hide SizeFaithful, Faithful, Grouped, TreeSize, NodeSize;
    var nodes := GroupedAll(index, trees, key);
    GroupedAt(index, trees, key);
    forall i | 0 <= i < |trees|
      ensures SizeFaithful(index, trees[i], key) && NodeSize(nodes[i]) == TreeSize(trees[i])
    {
      FaithfulInSizes(index, trees[i], key);
      SizeKept(index, trees[i], key);
    }
    forall i, j | 0 <= i < |trees| && 0 <= j < |trees| && key(nodes[i]) == key(nodes[j])
      ensures TreeSize(trees[i]) == TreeSize(trees[j])
    {
      assert nodes[i] in nodes && nodes[j] in nodes;
    }
  }

  ghost predicate FaithfulTrace(index: Index, key: Node -> string) {
    var p := ParentsOf(index);
    FaithfulRoots(index, TreesOf(p, Roots(p), MAX_TRACE_DEPTH), key)
  }

  /** Fingerprints tell apart the siblings of every tree and the traces of the forest. */
  ghost predicate FaithfulForest(spans: seq<RawSpan>, keys: Keys) {
    && (forall id :: id in TraceIds(spans) ==> FaithfulTrace(IndexIn(spans, id), keys.node))
    && Separates(keys.trace, TracesOf(spans, SortedKeys(TraceIds(spans)), keys.node))
  }

  ghost predicate SizeFaithfulTrace(index: Index, key: Node -> string) {
    var p := ParentsOf(index);
    SizeFaithfulRoots(index, TreesOf(p, Roots(p), MAX_TRACE_DEPTH), key)
  }

  /** Equal fingerprints stand for equally many spans, among the siblings of every tree and
      among the traces. */
  ghost predicate SizeFaithfulForest(spans: seq<RawSpan>, keys: Keys) {
    var ids := SortedKeys(TraceIds(spans));
    && (forall id :: id in TraceIds(spans) ==> SizeFaithfulTrace(IndexIn(spans, id), keys.node))
    && WeighAlike(TracesOf(spans, ids, keys.node), keys.trace, ids, CountIn(spans))
  }

  lemma TreesHoldTrace(index: Index)
    requires TraceAcceptable(ParentsOf(index)) && "" !in index
    ensures var p := ParentsOf(index);
            |IdsOfAll(TreesOf(p, Roots(p), MAX_TRACE_DEPTH))| == |index|
  {
    hide TreesOf, Roots, IdsOfAll, Acyclic, Shallow, RootsFit;
    var p := ParentsOf(index);
    RootsFitIffShallow(p, MAX_TRACE_DEPTH);
    TreesPartitionTrace(p, MAX_TRACE_DEPTH);
    assert |multiset(p.Keys)| == |p.Keys| == |index|;
  }

  lemma TraceSizeKept(index: Index, key: Node -> string)
    requires SizeFaithfulTrace(index, key) && TraceAcceptable(ParentsOf(index)) && "" !in index
    ensures TraceSize(TraceOf(index, key)) == |index|
  {
    hide SizeFaithfulRoots, TreesOf, Roots, IdsOfAll, Gather, GroupsSize, GroupedAll, TraceAcceptable;
    var p := ParentsOf(index);
    TreesHoldTrace(index);
    SizesKept(index, TreesOf(p, Roots(p), MAX_TRACE_DEPTH), key);
  }

  // ---- Counting spans by trace ----

  function CountIn(spans: seq<RawSpan>): string -> nat {
    id => |IndexIn(spans, id)|
  }

  lemma {:induction false} SumChanges(ids: seq<string>, f: string -> nat, g: string -> nat, at: string)
    requires Distinct(ids) && forall id :: id in ids && id != at ==> f(id) == g(id)
    ensures Sum(ids, g) == Sum(ids, f) + if at in ids then g(at) - f(at) else 0
  {
    if ids != [] {
      var n := |ids| - 1;
      assert ids == ids[..n] + [ids[n]];
      SumChanges(ids[..n], f, g, at);
    }
  }

  lemma {:induction false} SpansByTrace(spans: seq<RawSpan>)
    requires Identified(spans)
    ensures Sum(SortedKeys(TraceIds(spans)), CountIn(spans)) == |spans|
  {
    hide Identified, IndexIn, SortedKeys, Distinct, CountIn;
    if spans == [] {
      assert TraceIds(spans) == {};
      NoKeys();
    } else {
      var n := |spans| - 1;
      var span := spans[n];
      var before, after := SortedKeys(TraceIds(spans[..n])), SortedKeys(TraceIds(spans));
      IdentifiedPrefix(spans, n);
      SpansByTrace(spans[..n]);
      OneMore(spans);
      SumChanges(before, CountIn(spans[..n]), CountIn(spans), span.traceId);
      assert TraceIds(spans) == TraceIds(spans[..n]) + {span.traceId};
      if span.traceId in TraceIds(spans[..n]) {
        assert TraceIds(spans) == TraceIds(spans[..n]);
      } else {
        SumOverNewKey(TraceIds(spans[..n]), span.traceId, CountIn(spans));
      }
    }
  }

  lemma SumOverNewKey(ids: set<string>, id: string, f: string -> nat)
    requires id !in ids
    ensures Sum(SortedKeys(ids + {id}), f) == Sum(SortedKeys(ids), f) + f(id)
  {
    hide SortedKeys;
    var before, after := SortedKeys(ids), SortedKeys(ids + {id});
    var longer := before + [id];
    DistinctSame(after, longer);
    SumOfSame(after, longer, f);
    assert longer[..|before|] == before;
  }

  lemma NoKeys()
    ensures SortedKeys({}) == []
  {
  }

  lemma OneMore(spans: seq<RawSpan>)
    requires Identified(spans) && spans != []
    ensures var n := |spans| - 1;
            && (forall id :: id != spans[n].traceId ==> CountIn(spans)(id) == CountIn(spans[..n])(id))
            && CountIn(spans)(spans[n].traceId) == CountIn(spans[..n])(spans[n].traceId) + 1
            && (spans[n].traceId !in TraceIds(spans[..n]) ==> CountIn(spans[..n])(spans[n].traceId) == 0)
  {
    hide IndexIn;
    var n := |spans| - 1;
    forall id
      ensures CountIn(spans)(id) == CountIn(spans[..n])(id) + if id == spans[n].traceId then 1 else 0
    {
      IndexInStep(spans, id);
      IdentifiedPrefix(spans, n);
      IndexHolds(spans[..n], id);
      if id == spans[n].traceId {
        var index := IndexIn(spans[..n], id);
        assert spans[n].spanId !in index;
      }
    }
    IdentifiedPrefix(spans, n);
    if spans[n].traceId !in TraceIds(spans[..n]) {
      NothingIndexed(spans[..n], spans[n].traceId);
    }
  }

  lemma NothingIndexed(spans: seq<RawSpan>, traceId: string)
    requires Identified(spans) && traceId !in TraceIds(spans)
    ensures IndexIn(spans, traceId) == map[]
  {
    hide IndexIn;
    IndexHolds(spans, traceId);
    forall id
      ensures id !in IndexIn(spans, traceId)
    {
    }
  }

  /** Wherever equal fingerprints stand for equally many spans, the forest stands for
      exactly as many spans as went in. */
  lemma ForestSizeKept(spans: seq<RawSpan>, keys: Keys)
    requires Acceptable(spans) && SizeFaithfulForest(spans, keys)
    ensures ForestSize(ForestOf(spans, keys)) == |spans|
  {
    hide TraceOf, TraceAcceptable, SizeFaithfulTrace, Identified, IndexIn, Gather, WeighAlike, SortedKeys, TraceSize,
         TraceIds,
         ParentsOf, CountIn;
    var ids := SortedKeys(TraceIds(spans));
    var traces := TracesOf(spans, ids, keys.node);
    TraceSizes(spans, ids, keys.node);
    AlikeSeparates(traces, keys.trace, TraceSize, ids, CountIn(spans));
    GatherKeepsWeight(traces, keys.trace, TraceSize);
    SumsCompare(traces, TraceSize, ids, CountIn(spans));
    SpansByTrace(spans);
  }

  lemma {:induction false} TraceAt(spans: seq<RawSpan>, ids: seq<string>, key: Node -> string, i: nat)
    requires i < |ids|
    ensures TracesOf(spans, ids, key)[i] == TraceOf(IndexIn(spans, ids[i]), key)
  {
    hide TraceOf, IndexIn;
    if i < |ids| - 1 {
      TraceAt(spans, ids[..|ids| - 1], key, i);
    }
  }

  lemma TraceSizes(spans: seq<RawSpan>, ids: seq<string>, key: Node -> string)
    requires Acceptable(spans)
    requires forall id :: id in ids ==> id in TraceIds(spans) && SizeFaithfulTrace(IndexIn(spans, id), key)
    ensures forall i :: 0 <= i < |ids| ==> TraceSize(TracesOf(spans, ids, key)[i]) == CountIn(spans)(ids[i])
  {
    hide TraceOf, TraceAcceptable, SizeFaithfulTrace, Identified, IndexIn, TraceSize, TraceIds, ParentsOf, TracesOf;
    forall i | 0 <= i < |ids|
      ensures TraceSize(TracesOf(spans, ids, key)[i]) == CountIn(spans)(ids[i])
    {
      assert ids[i] in ids;
      TraceAt(spans, ids, key, i);
      SpansInTrace(spans, ids[i]);
      TraceSizeKept(IndexIn(spans, ids[i]), key);
    }
  }

  /** Telling nodes and traces apart tells their sizes apart. */
  lemma FaithfulForestInSizes(spans: seq<RawSpan>, keys: Keys)
    requires Acceptable(spans) && FaithfulForest(spans, keys)
    ensures SizeFaithfulForest(spans, keys)
  {
    hide TraceOf, TraceAcceptable, SizeFaithfulTrace, Identified, IndexIn, SortedKeys, TraceSize, TraceIds, ParentsOf,
         TracesOf,
         FaithfulTrace;
    forall id | id in TraceIds(spans)
      ensures SizeFaithfulTrace(IndexIn(spans, id), keys.node)
    {
      FaithfulTraceInSizes(IndexIn(spans, id), keys.node);
    }
    var ids := SortedKeys(TraceIds(spans));
    var traces := TracesOf(spans, ids, keys.node);
    TraceSizes(spans, ids, keys.node);
    forall i, j | 0 <= i < |ids| && 0 <= j < |ids| && keys.trace(traces[i]) == keys.trace(traces[j])
      ensures CountIn(spans)(ids[i]) == CountIn(spans)(ids[j])
    {
      assert traces[i] in traces && traces[j] in traces;
    }
  }

  lemma FaithfulTraceInSizes(index: Index, key: Node -> string)
    requires FaithfulTrace(index, key)
    ensures SizeFaithfulTrace(index, key)
  {
    hide SizeFaithfulRoots, FaithfulRoots;
    FaithfulRootsInSizes(index, TreesOf(ParentsOf(index), Roots(ParentsOf(index)), MAX_TRACE_DEPTH), key);
  }
}
