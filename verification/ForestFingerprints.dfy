/** Bracketed fingerprints give every forest its size and its independence of names; the
    written ones do not. */
module ForestFingerprints {
  import opened Basics
  import opened Wrappers
  import opened Ordering
  import opened ParentChains
  import opened TraceForest
  import opened ForestSizes
  import opened ForestRenaming
  import opened Fingerprint

  // ---- Bracketed fingerprints ----

  lemma BracketedSeparates(nodes: seq<Node>)
    ensures Separates(Bracketed, nodes)
  {
    hide Bracketed;
    forall a, b | a in nodes && b in nodes && Bracketed(a) == Bracketed(b)
      ensures a == b
    {
      BracketedSeparatesNodes(a, b);
    }
  }

  lemma {:induction false} BracketedFaithful(index: Index, t: Tree)
    ensures Faithful(index, t, Bracketed)
  {
    hide Bracketed, Separates;
    BracketedSeparates(GroupedAll(index, t.children, Bracketed));
    forall i | 0 <= i < |t.children|
      ensures Faithful(index, t.children[i], Bracketed)
    {
      BracketedFaithful(index, t.children[i]);
    }
  }

  lemma BracketedFaithfulForest(spans: seq<RawSpan>)
    ensures FaithfulForest(spans, BRACKETED)
  {
    hide Bracketed, BracketedTrace, Separates, Faithful, TraceIds, IndexIn, TreesOf, Roots;
    forall id | id in TraceIds(spans)
      ensures FaithfulTrace(IndexIn(spans, id), Bracketed)
    {
      var index := IndexIn(spans, id);
      var p := ParentsOf(index);
      var trees := TreesOf(p, Roots(p), MAX_TRACE_DEPTH);
      BracketedSeparates(GroupedAll(index, trees, Bracketed));
      forall i | 0 <= i < |trees|
        ensures Faithful(index, trees[i], Bracketed)
      {
        BracketedFaithful(index, trees[i]);
      }
    }
    BracketedTracesSeparate(TracesOf(spans, SortedKeys(TraceIds(spans)), Bracketed));
  }

  lemma BracketedTracesSeparate(traces: seq<Trace>)
    ensures Separates(BracketedTrace, traces)
  {
    hide BracketedTrace;
    forall a, b | a in traces && b in traces && BracketedTrace(a) == BracketedTrace(b)
      ensures a == b
    {
      BracketedSeparatesTraces(a, b);
    }
  }

  /** With bracketed fingerprints every accepted list of spans keeps its size, and its
      forest is a canonical form: it depends neither on names nor on order. */
  lemma BracketedForestIsCanonical(r: Renaming, a: seq<RawSpan>, b: seq<RawSpan>)
    requires Proper(r) && IsRenaming(r, a, b) && Acceptable(a)
    ensures ForestSize(ForestOf(a, BRACKETED)) == |a|
    ensures Acceptable(b) && ForestOf(b, BRACKETED) == ForestOf(a, BRACKETED)
  {
    hide FaithfulForest, SizeFaithfulForest, ForestOf, ForestSize, IsRenaming, Proper, Acceptable;
    BracketedFaithfulForest(a);
    FaithfulForestInSizes(a, BRACKETED);
    ForestSizeKept(a, BRACKETED);
    ForestForgetsNames(r, a, b, BRACKETED);
  }

  // ---- Written fingerprints ----

  const A := SemanticSpan("a", "server", "unset", "GET /", None)
  const B := SemanticSpan("b", "internal", "unset", "query", None)
  const C := SemanticSpan("c", "client", "unset", "call", None)

  function Leaf(s: SemanticSpan): Node {
    Node(s, [])
  }

  // Two B spans with one C span each, and two B spans beside one C span.
  const DEEP := Node(A, [Group(2, Node(B, [Group(1, Leaf(C))]))])
  const FLAT := Node(A, [Group(2, Leaf(B)), Group(1, Leaf(C))])

  /** Five span IDs of a trace. */
  ghost predicate SpanIds(x: seq<string>) {
    |x| == 5 && Distinct(x) && "" !in x
  }

  function DeepSpans(t: string, x: seq<string>): seq<RawSpan>
    requires |x| == 5
  {
    [RawSpan(t, x[0], "", A), RawSpan(t, x[1], x[0], B), RawSpan(t, x[2], x[0], B),
     RawSpan(t, x[3], x[1], C), RawSpan(t, x[4], x[2], C)]
  }

  function FlatSpans(t: string, x: seq<string>): seq<RawSpan>
    requires |x| == 5
  {
    [RawSpan(t, x[0], "", A), RawSpan(t, x[1], x[0], B), RawSpan(t, x[2], x[0], B), RawSpan(t, x[3], x[0], C)]
  }

  /** A deep trace of five spans and a flat trace of four. */
  function Spans(deep: string, flat: string, x: seq<string>): seq<RawSpan>
    requires |x| == 5
  {
    DeepSpans(deep, x) + FlatSpans(flat, x)
  }

  /** The index files exactly the listed spans, each under its ID. */
  ghost predicate Holds(index: Index, spans: seq<RawSpan>) {
    && (forall s :: s in spans ==> s.spanId in index && index[s.spanId] == s)
    && (forall id :: id in index ==> index[id] in spans && index[id].spanId == id)
  }

  lemma SameWritten()
    ensures Written(DEEP) == Written(FLAT)
  {
    hide Written;
    GrandchildrenReadAsChildren(A, [], 2, B, [Group(1, Leaf(C))]);
    assert [] + [Group(2, Node(B, [Group(1, Leaf(C))]))] == DEEP.children;
    assert [] + [Group(2, Leaf(B))] + [Group(1, Leaf(C))] == FLAT.children;
  }

  lemma DifferentSizes()
    ensures NodeSize(DEEP) == 5 && NodeSize(FLAT) == 4
  {
    hide GroupsSize;
    var b := Node(B, [Group(1, Leaf(C))]);
    NoGroups();
    SizeOfOne(1, Leaf(C));
    SizeOfOne(2, b);
    SizeOfOne(2, Leaf(B));
    SizeOfTwo(Group(2, Leaf(B)), Group(1, Leaf(C)));
    assert Times(1, 1) == 1 && Times(1, 2) == 2 && Times(2, 2) == 4;
  }

  lemma NoGroups()
    ensures GroupsSize([]) == 0
  {
  }

  lemma SizeOfTwo(g: Group<Node>, h: Group<Node>)
    ensures GroupsSize([g, h]) == GroupsSize([g]) + Times(NodeSize(h.item), h.count)
  {
    assert [g, h][..1] == [g];
  }

  lemma SizeOfOne(count: nat, n: Node)
    ensures GroupsSize([Group(count, n)]) == Times(NodeSize(n), count)
  {
    var g := [Group(count, n)];
    assert g[..0] == [];
  }

  lemma GatherOne<T(!new)>(x: T, key: T -> string)
    ensures Gather([x], key) == [Group(1, x)]
  {
    SortAscending([x], key);
    StartGroup([], x, key);
    assert [] + [x] == [x];
  }

  lemma StartGroup<T>(s: seq<T>, x: T, key: T -> string)
    requires s == [] || key(s[|s| - 1]) != key(x)
    ensures Runs(s + [x], key) == Runs(s, key) + [Group(1, x)]
  {
    assert (s + [x])[..|s|] == s;
  }

  lemma LengthenGroup<T>(s: seq<T>, first: T, x: T, key: T -> string)
    requires s != [] && key(s[|s| - 1]) == key(x) && Runs(s, key) == [Group(1, first)]
    ensures Runs(s + [x], key) == [Group(2, first)]
  {
    assert (s + [x])[..|s|] == s;
  }

  lemma {:induction false} SortAscending<T(!new)>(s: seq<T>, key: T -> string)
    requires Ascending(s, key)
    ensures SortBy(s, key) == s
  {
    hide Ascending, Insert;
    if s != [] {
      PrefixOrdered(s, key);
      SortAscending(s[..|s| - 1], key);
      InsertLast(s, key);
    }
  }

  lemma InsertLast<T>(s: seq<T>, key: T -> string)
    requires s != [] && Ascending(s, key) && Ascending(s[..|s| - 1], key)
    ensures Insert(s[..|s| - 1], s[|s| - 1], key) == s
  {
    var n := |s| - 1;
    assert s == s[..n] + [s[n]];
    if n > 0 {
      assert AtMost(key(s[n - 1]), key(s[n]));
    }
  }

  lemma {:induction false} AtMostSelf(s: string)
    ensures AtMost(s, s)
  {
    Total(s, s);
  }

  /** Two elements with one key become one group holding the first. */
  lemma GatherTwo<T(!new)>(x: T, y: T, key: T -> string)
    requires key(x) == key(y)
    ensures Gather([x, y], key) == [Group(2, x)]
  {
    hide Runs, SortBy;
    AtMostSelf(key(x));
    SortAscending([x, y], key);
    SortAscending([x], key);
    GatherOne(x, key);
    LengthenGroup([x], x, y, key);
    assert [x] + [y] == [x, y];
  }

  lemma GatherTwoAndOne<T(!new)>(x: T, y: T, key: T -> string)
    requires AtMost(key(x), key(y)) && key(x) != key(y)
    ensures Gather([x, x, y], key) == [Group(2, x), Group(1, y)]
  {
    hide Runs, SortBy;
    AtMostSelf(key(x));
    SortAscending([x, x, y], key);
    SortAscending([x, x], key);
    GatherTwo(x, x, key);
    StartGroup([x, x], y, key);
    assert [x, x] + [y] == [x, x, y];
  }

  /** The children of a span, grouped from any list of them. */
  lemma GatherListed(index: Index, ids: seq<string>, listed: seq<string>, fuel: nat, nodes: seq<Node>,
                     key: Node -> string)
    requires Distinct(ids) && Distinct(listed) && forall id :: id in ids <==> id in listed
    requires |nodes| == |listed| && forall i :: 0 <= i < |listed| ==> nodes[i] == NodeAt(index, listed[i], fuel, key)
    requires Separates(key, nodes)
    ensures Gather(NodesAt(index, ids, fuel, key), key) == Gather(nodes, key)
  {
    hide NodeAt, NodesAt, Separates, Runs, Distinct;
    var at := id => NodeAt(index, id, fuel, key);
    NodesAreImages(index, ids, fuel, key);
    DistinctSame(listed, ids);
    SameMultisetOfImages(listed, ids, at);
    assert Images(listed, at) == nodes;
    SortForgetsOrder(nodes, NodesAt(index, ids, fuel, key), key);
  }

  lemma NoChildIds(p: Parents, id: string)
    requires forall k :: k in p ==> p[k] != id
    ensures ChildIds(p, id) == []
  {
    var ids := ChildIds(p, id);
    DistinctSame(ids, []);
    SameSize(ids, []);
  }

  lemma LeafNode(index: Index, id: string, fuel: nat, key: Node -> string)
    requires id in index && forall k :: k in index ==> index[k].parentId != id
    ensures NodeAt(index, id, fuel, key) == Leaf(index[id].semantic)
  {
    hide NodeAt, NodesAt;
    if fuel == 0 {
      NoChildren(index, id, key);
    } else {
      NodeAtStep(index, id, fuel, key);
      NoChildIds(ParentsOf(index), id);
      NodesAreImages(index, [], fuel - 1, key);
    }
    assert Gather<Node>([], key) == [];
  }

  // ---- The two traces ----

  lemma LeafOrder()
    ensures AtMost(Written(Leaf(B)), Written(Leaf(C))) && Written(Leaf(B)) != Written(Leaf(C))
  {
    StartsWith(B, 'b');
    StartsWith(C, 'c');
    var b, c := Written(Leaf(B)), Written(Leaf(C));
    assert b[1] != c[1];
    assert AtMost(b[1..], c[1..]);
  }

  lemma StartsWith(s: SemanticSpan, c: char)
    requires s.scope == [c] && 'a' <= c <= 'z'
    ensures |Written(Leaf(s))| > 1 && Written(Leaf(s))[0] == '"' && Written(Leaf(s))[1] == c
  {
    hide DebugStatus;
    assert s.scope[1..] == "";
    assert Escape(s.scope) == [c] + "";
    assert Debug(s.scope)[1] == c;
    var head := Head(s);
    assert head[..|Debug(s.scope)|] == Debug(s.scope);
  }

  ghost predicate ChildrenAre(index: Index, id: string, listed: seq<string>) {
    && Distinct(listed) && id in index
    && (forall k :: k in listed ==> k in index)
    && (forall k :: k in index ==> (index[k].parentId == id <==> k in listed))
  }

  /** The node of a span whose children are listed. */
  lemma ListedNode(index: Index, id: string, listed: seq<string>, fuel: nat, nodes: seq<Node>)
    requires ChildrenAre(index, id, listed) && fuel > 0
    requires |nodes| == |listed| && forall i :: 0 <= i < |listed| ==>
             nodes[i] == NodeAt(index, listed[i], fuel - 1, Written)
    requires Separates(Written, nodes)
    ensures NodeAt(index, id, fuel, Written) == Node(index[id].semantic, Gather(nodes, Written))
  {
    hide NodeAt, NodesAt, Written, Gather, Separates;
    NodeAtStep(index, id, fuel, Written);
    GatherListed(index, ChildIds(ParentsOf(index), id), listed, fuel - 1, nodes, Written);
  }

  lemma DeepChildren(index: Index, t: string, x: seq<string>)
    requires SpanIds(x) && Holds(index, DeepSpans(t, x))
    ensures ChildrenAre(index, x[0], [x[1], x[2]]) && ChildrenAre(index, x[1], [x[3]]) &&
            ChildrenAre(index, x[2], [x[4]])
    ensures ChildrenAre(index, x[3], []) && ChildrenAre(index, x[4], [])
    ensures index[x[0]].semantic == A && index[x[1]].semantic == index[x[2]].semantic == B
    ensures index[x[3]].semantic == index[x[4]].semantic == C
  {
    DeepListed(index, t, x);
  }

  lemma DeepListed(index: Index, t: string, x: seq<string>)
    requires SpanIds(x) && Holds(index, DeepSpans(t, x))
    ensures forall k :: k in index <==> k in x
    ensures index[x[0]] == RawSpan(t, x[0], "", A) && index[x[1]] == RawSpan(t, x[1], x[0], B)
    ensures index[x[2]] == RawSpan(t, x[2], x[0], B) && index[x[3]] == RawSpan(t, x[3], x[1], C)
    ensures index[x[4]] == RawSpan(t, x[4], x[2], C)
  {
    var spans := DeepSpans(t, x);
    assert forall i :: 0 <= i < 5 ==> spans[i] in spans && spans[i].spanId == x[i];
    assert spans[0] in spans && spans[1] in spans && spans[2] in spans && spans[3] in spans && spans[4] in spans;
  }

  lemma FlatListed(index: Index, t: string, x: seq<string>)
    requires SpanIds(x) && Holds(index, FlatSpans(t, x))
    ensures forall k :: k in index <==> k in x[..4]
    ensures index[x[0]] == RawSpan(t, x[0], "", A) && index[x[1]] == RawSpan(t, x[1], x[0], B)
    ensures index[x[2]] == RawSpan(t, x[2], x[0], B) && index[x[3]] == RawSpan(t, x[3], x[0], C)
  {
    var spans := FlatSpans(t, x);
    assert forall i :: 0 <= i < 4 ==> spans[i] in spans && spans[i].spanId == x[..4][i];
    assert spans[0] in spans && spans[1] in spans && spans[2] in spans && spans[3] in spans;
  }

  lemma FlatChildren(index: Index, t: string, x: seq<string>)
    requires SpanIds(x) && Holds(index, FlatSpans(t, x))
    ensures ChildrenAre(index, x[0], [x[1], x[2], x[3]])
    ensures ChildrenAre(index, x[1], []) && ChildrenAre(index, x[2], []) && ChildrenAre(index, x[3], [])
    ensures index[x[0]].semantic == A && index[x[1]].semantic == index[x[2]].semantic == B && index[x[3]].semantic == C
  {
    FlatListed(index, t, x);
  }

  lemma DeepNode(index: Index, t: string, x: seq<string>, fuel: nat)
    requires SpanIds(x) && Holds(index, DeepSpans(t, x)) && fuel >= 2
    ensures NodeAt(index, x[0], fuel, Written) == DEEP
  {
    hide NodeAt, Written, Gather, Holds, DeepSpans, ChildrenAre;
    var b := Node(B, [Group(1, Leaf(C))]);
    DeepChildren(index, t, x);
    MiddleNode(index, x[1], x[3], fuel - 1);
    MiddleNode(index, x[2], x[4], fuel - 1);
    ListedNode(index, x[0], [x[1], x[2]], fuel, [b, b]);
    GatherTwo(b, b, Written);
  }

  lemma MiddleNode(index: Index, id: string, leaf: string, fuel: nat)
    requires ChildrenAre(index, id, [leaf]) && ChildrenAre(index, leaf, [])
    requires fuel > 0 && index[leaf].semantic == C
    ensures NodeAt(index, id, fuel, Written) == Node(index[id].semantic, [Group(1, Leaf(C))])
  {
    hide NodeAt, Written, Gather;
    LeafNode(index, leaf, fuel - 1, Written);
    ListedNode(index, id, [leaf], fuel, [Leaf(C)]);
    GatherOne(Leaf(C), Written);
  }

  lemma FlatNode(index: Index, t: string, x: seq<string>, fuel: nat)
    requires SpanIds(x) && Holds(index, FlatSpans(t, x)) && fuel >= 1
    ensures NodeAt(index, x[0], fuel, Written) == FLAT
  {
    hide NodeAt, Written, Gather, Holds, FlatSpans;
    FlatChildren(index, t, x);
    LeafOrder();
    LeafNode(index, x[1], fuel - 1, Written);
    LeafNode(index, x[2], fuel - 1, Written);
    LeafNode(index, x[3], fuel - 1, Written);
    ListedNode(index, x[0], [x[1], x[2], x[3]], fuel, [Leaf(B), Leaf(B), Leaf(C)]);
    GatherTwoAndOne(Leaf(B), Leaf(C), Written);
  }

  lemma OneRootTrace(index: Index, root: string, n: Node)
    requires root in index && !HasParent(ParentsOf(index), root)
    requires forall k :: k in index && k != root ==> HasParent(ParentsOf(index), k)
    requires index[root].parentId == "" && NodeAt(index, root, MAX_TRACE_DEPTH, Written) == n
    ensures TraceOf(index, Written) == Trace(Complete, [Group(1, n)])
  {
    hide NodeAt, NodesAt, Written, Gather, GroupedAll, TreesOf;
    var p := ParentsOf(index);
    assert !HasParent(p, root) && forall k :: k in p && k != root ==> HasParent(p, k);
    GatherListed(index, Roots(p), [root], MAX_TRACE_DEPTH, [n], Written);
    GatherOne(n, Written);
    assert !ParentMissing(p);
    NodesAtIs(index, Roots(p), MAX_TRACE_DEPTH, Written);
  }

  lemma NodesAtIs(index: Index, ids: seq<string>, fuel: nat, key: Node -> string)
    ensures NodesAt(index, ids, fuel, key) == GroupedAll(index, TreesOf(ParentsOf(index), ids, fuel), key)
  {
  }

  lemma DeepTrace(index: Index, t: string, x: seq<string>)
    requires SpanIds(x) && Holds(index, DeepSpans(t, x))
    ensures TraceOf(index, Written) == WholeTrace(DEEP)
  {
    hide NodeAt, Written, TraceOf, Holds, DeepSpans;
    DeepNode(index, t, x, MAX_TRACE_DEPTH);
    DeepListed(index, t, x);
    OneRootTrace(index, x[0], DEEP);
  }

  lemma DeepAcceptable(index: Index, t: string, x: seq<string>)
    requires SpanIds(x) && Holds(index, DeepSpans(t, x))
    ensures TraceAcceptable(ParentsOf(index))
  {
    hide Holds, DeepSpans;
    DeepListed(index, t, x);
    var p := ParentsOf(index);
    assert Level(p, x[0], 0) && Level(p, x[1], 1) && Level(p, x[2], 1) && Level(p, x[3], 2) && Level(p, x[4], 2);
  }

  lemma FlatTrace(index: Index, t: string, x: seq<string>)
    requires SpanIds(x) && Holds(index, FlatSpans(t, x))
    ensures TraceOf(index, Written) == WholeTrace(FLAT)
  {
    hide NodeAt, Written, TraceOf, Holds, FlatSpans;
    FlatNode(index, t, x, MAX_TRACE_DEPTH);
    FlatListed(index, t, x);
    OneRootTrace(index, x[0], FLAT);
  }

  lemma FlatAcceptable(index: Index, t: string, x: seq<string>)
    requires SpanIds(x) && Holds(index, FlatSpans(t, x))
    ensures TraceAcceptable(ParentsOf(index))
  {
    hide Holds, FlatSpans;
    FlatListed(index, t, x);
    var p := ParentsOf(index);
    assert Level(p, x[0], 0) && Level(p, x[1], 1) && Level(p, x[2], 1) && Level(p, x[3], 1);
  }

  lemma SpansListed(deep: string, flat: string, x: seq<string>)
    requires SpanIds(x) && deep != flat
    ensures var spans := Spans(deep, flat, x);
            && |spans| == 9
            && (forall s :: s in spans && s.traceId == deep <==> s in DeepSpans(deep, x))
            && (forall s :: s in spans && s.traceId == flat <==> s in FlatSpans(flat, x))
            && (forall i :: 0 <= i < 9 ==> spans[i].traceId == (if i < 5 then deep else flat))
            && (forall i :: 0 <= i < 9 ==> spans[i].spanId == x[if i < 5 then i else i - 5])
  {
    assert forall s :: s in DeepSpans(deep, x) ==> s.traceId == deep;
    assert forall s :: s in FlatSpans(flat, x) ==> s.traceId == flat;
  }

  lemma SpansApart(deep: string, flat: string, x: seq<string>, i: nat, j: nat)
    requires SpanIds(x) && deep != flat && i < j < 9
    ensures var s, t := Spans(deep, flat, x)[i], Spans(deep, flat, x)[j];
            s.traceId != t.traceId || s.spanId != t.spanId
  {
    hide Spans;
    SpansListed(deep, flat, x);
  }

  lemma SpansNamed(deep: string, flat: string, x: seq<string>, i: nat)
    requires SpanIds(x) && deep != flat && deep != "" && flat != "" && i < 9
    ensures Spans(deep, flat, x)[i].traceId != "" && Spans(deep, flat, x)[i].spanId != ""
  {
    hide Spans;
    SpansListed(deep, flat, x);
    assert x[if i < 5 then i else i - 5] in x;
  }

  lemma IdentifiedSpans(deep: string, flat: string, x: seq<string>)
    requires SpanIds(x) && deep != flat && deep != "" && flat != ""
    ensures Identified(Spans(deep, flat, x))
  {
    hide Spans, Distinct;
    var spans := Spans(deep, flat, x);
    assert |spans| == 9 by {
      SpansListed(deep, flat, x);
    }
    forall i, j | 0 <= i < j < |spans|
      ensures spans[i].traceId != spans[j].traceId || spans[i].spanId != spans[j].spanId
    {
      SpansApart(deep, flat, x, i, j);
    }
    forall i | 0 <= i < |spans|
      ensures spans[i].traceId != "" && spans[i].spanId != ""
    {
      SpansNamed(deep, flat, x, i);
    }
  }

  lemma IndexedSpans(deep: string, flat: string, x: seq<string>)
    requires SpanIds(x) && deep != flat && deep != "" && flat != ""
    ensures Holds(IndexIn(Spans(deep, flat, x), deep), DeepSpans(deep, x))
    ensures Holds(IndexIn(Spans(deep, flat, x), flat), FlatSpans(flat, x))
  {
    hide IndexIn, Identified, Spans, DeepSpans, FlatSpans;
    IdentifiedSpans(deep, flat, x);
    SpansListed(deep, flat, x);
    IndexHolds(Spans(deep, flat, x), deep);
    IndexHolds(Spans(deep, flat, x), flat);
  }

  lemma TraceIdsOfSpans(deep: string, flat: string, x: seq<string>)
    requires SpanIds(x) && deep != flat
    ensures TraceIds(Spans(deep, flat, x)) == {deep, flat}
  {
    hide TraceIds, Spans;
    SpansListed(deep, flat, x);
    var spans := Spans(deep, flat, x);
    assert spans[0].traceId == deep && spans[5].traceId == flat;
  }

  lemma DeepAlone(deep: string, flat: string, x: seq<string>)
    requires SpanIds(x) && deep != flat && deep != "" && flat != ""
    ensures var index := IndexIn(Spans(deep, flat, x), deep);
            TraceAcceptable(ParentsOf(index)) && TraceOf(index, Written) == WholeTrace(DEEP)
  {
    hide IndexIn, Spans, DeepSpans, FlatSpans, Holds, TraceAcceptable, TraceOf, WholeTrace, Distinct;
    IndexedSpans(deep, flat, x);
    DeepAcceptable(IndexIn(Spans(deep, flat, x), deep), deep, x);
    DeepTrace(IndexIn(Spans(deep, flat, x), deep), deep, x);
  }

  lemma FlatAlone(deep: string, flat: string, x: seq<string>)
    requires SpanIds(x) && deep != flat && deep != "" && flat != ""
    ensures var index := IndexIn(Spans(deep, flat, x), flat);
            TraceAcceptable(ParentsOf(index)) && TraceOf(index, Written) == WholeTrace(FLAT)
  {
    hide IndexIn, Spans, DeepSpans, FlatSpans, Holds, TraceAcceptable, TraceOf, WholeTrace, Distinct;
    IndexedSpans(deep, flat, x);
    FlatAcceptable(IndexIn(Spans(deep, flat, x), flat), flat, x);
    FlatTrace(IndexIn(Spans(deep, flat, x), flat), flat, x);
  }

  lemma AcceptableSpans(deep: string, flat: string, x: seq<string>)
    requires SpanIds(x) && deep != flat && deep != "" && flat != ""
    ensures Acceptable(Spans(deep, flat, x))
  {
    hide IndexIn, Identified, Spans, TraceIds, TraceAcceptable, TraceOf, Distinct;
    IdentifiedSpans(deep, flat, x);
    TraceIdsOfSpans(deep, flat, x);
    DeepAlone(deep, flat, x);
    FlatAlone(deep, flat, x);
  }

  lemma SortedPair(x: string, y: string)
    requires AtMost(x, y) && x != y
    ensures SortedKeys({x, y}) == [x, y]
  {
    AtMostSelf(x);
    AtMostSelf(y);
    assert Least({x, y}, x);
    LeastUnique({x, y});
    assert {x, y} - {x} == {y};
    assert Least({y}, y);
    LeastUnique({y});
    assert {y} - {y} == {};
  }

  function WholeTrace(n: Node): Trace {
    Trace(Complete, [Group(1, n)])
  }

  lemma SameWrittenTrace()
    ensures WrittenTrace(WholeTrace(DEEP)) == WrittenTrace(WholeTrace(FLAT))
  {
    hide Written;
    SameWritten();
    WrittenOne(Group(1, DEEP));
    WrittenOne(Group(1, FLAT));
  }

  lemma MergedTwo(spans: seq<RawSpan>, first: string, second: string, x: Trace, y: Trace)
    requires TraceIds(spans) == {first, second} && AtMost(first, second) && first != second
    requires TraceOf(IndexIn(spans, first), Written) == x && TraceOf(IndexIn(spans, second), Written) == y
    requires WrittenTrace(x) == WrittenTrace(y)
    ensures ForestOf(spans, WRITTEN) == [Group(2, x)]
  {
    hide IndexIn, TraceIds, TraceOf, Gather, SortedKeys, AtMost, WrittenTrace;
    SortedPair(first, second);
    TracesAreImages(spans, [first, second], Written);
    assert TracesOf(spans, [first, second], Written) == [x, y];
    GatherTwo(x, y, WrittenTrace);
  }

  /** The two traces become one group holding the one with the smaller trace ID. */
  lemma MergedForest(deep: string, flat: string, x: seq<string>)
    requires SpanIds(x) && deep != flat && deep != "" && flat != ""
    ensures ForestOf(Spans(deep, flat, x), WRITTEN) == [Group(2, WholeTrace(if AtMost(deep, flat) then DEEP else FLAT))]
  {
    hide IndexIn, Spans, TraceIds, TraceAcceptable, TraceOf, AtMost, WrittenTrace, WholeTrace, ForestOf, Distinct;
    TraceIdsOfSpans(deep, flat, x);
    DeepAlone(deep, flat, x);
    FlatAlone(deep, flat, x);
    SameWrittenTrace();
    Total(deep, flat);
    if AtMost(deep, flat) {
      MergedTwo(Spans(deep, flat, x), deep, flat, WholeTrace(DEEP), WholeTrace(FLAT));
    } else {
      MergedTwo(Spans(deep, flat, x), flat, deep, WholeTrace(FLAT), WholeTrace(DEEP));
    }
  }

  /** With the written fingerprint nine spans in two different traces become one group,
      whatever their IDs. It stands for ten spans or for eight, as the IDs of the two traces
      are ordered. */
  lemma WrittenForestLosesCount(deep: string, flat: string, x: seq<string>)
    requires SpanIds(x) && deep != flat && deep != "" && flat != ""
    ensures Acceptable(Spans(deep, flat, x)) && |Spans(deep, flat, x)| == 9
    ensures ForestSize(ForestOf(Spans(deep, flat, x), WRITTEN)) == if AtMost(deep, flat) then 10 else 8
  {
    hide ForestOf, Acceptable, TraceSize, Spans, SpanIds, AtMost, WholeTrace;
    AcceptableSpans(deep, flat, x);
    SpansListed(deep, flat, x);
    MergedForest(deep, flat, x);
    DifferentSizes();
    SizeOfGroup(Group(2, WholeTrace(DEEP)));
    SizeOfGroup(Group(2, WholeTrace(FLAT)));
    WholeTraceSize(DEEP);
    WholeTraceSize(FLAT);
    assert Times(5, 2) == 10 && Times(4, 2) == 8;
  }

  lemma SizeOfGroup(g: Group<Trace>)
    ensures ForestSize([g]) == Times(TraceSize(g.item), g.count)
  {
    assert [g][..0] == [];
    assert Weight<Trace>([], TraceSize) == 0;
    assert Weight([g], TraceSize) == Weight([g][..0], TraceSize) + Times(TraceSize(g.item), g.count);
  }

  lemma WholeTraceSize(n: Node)
    ensures TraceSize(WholeTrace(n)) == NodeSize(n)
  {
    hide NodeSize;
    SizeOfOne(1, n);
    assert Times(NodeSize(n), 1) == NodeSize(n);
  }

  function Swap(a: string, b: string): string -> string {
    id => if id == a then b else if id == b then a else id
  }

  function SwapTraces(a: string, b: string): Renaming {
    Renaming(Swap(a, b), (traceId, spanId) => spanId)
  }

  /** With the written fingerprint swapping the two trace IDs changes the forest. */
  lemma WrittenForestDependsOnNames(deep: string, flat: string, x: seq<string>)
    requires SpanIds(x) && deep != flat && deep != "" && flat != ""
    ensures Proper(SwapTraces(deep, flat)) &&
            IsRenaming(SwapTraces(deep, flat), Spans(deep, flat, x), Spans(flat, deep, x))
    ensures ForestOf(Spans(flat, deep, x), WRITTEN) != ForestOf(Spans(deep, flat, x), WRITTEN)
  {
    hide ForestOf, AtMost, IsRenaming, Proper;
    MergedForest(deep, flat, x);
    MergedForest(flat, deep, x);
    Total(deep, flat);
    if AtMost(deep, flat) && AtMost(flat, deep) {
      Antisymmetric(deep, flat);
    }
    SwapProper(deep, flat);
    SwapRenames(deep, flat, x);
  }

  lemma SwapProper(a: string, b: string)
    requires a != "" && b != ""
    ensures Proper(SwapTraces(a, b))
  {
  }

  lemma SwapRenames(deep: string, flat: string, x: seq<string>)
    requires SpanIds(x) && deep != flat
    ensures IsRenaming(SwapTraces(deep, flat), Spans(deep, flat, x), Spans(flat, deep, x))
  {
    var r := SwapTraces(deep, flat);
    var images := Images(Spans(deep, flat, x), s => Renamed(r, s));
    assert x[0] in x && x[1] in x && x[2] in x;
    assert images == Spans(flat, deep, x);
  }
}
