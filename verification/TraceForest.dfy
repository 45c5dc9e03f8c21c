/** Building the grouped trace forest from a flat list of spans. */
module TraceForest {
  import opened Wrappers
  import opened Ordering
  import opened ParentChains

  const MAX_TRACE_DEPTH: nat := 128

  datatype SemanticSpan = SemanticSpan(scope: string, kind: string, status: string, name: string,
    httpStatus: Option<int>)

  datatype RawSpan = RawSpan(traceId: string, spanId: string, parentId: string, semantic: SemanticSpan)

  datatype Node = Node(span: SemanticSpan, children: seq<Group<Node>>)

  datatype Coverage = Complete | Partial

  datatype Trace = Trace(coverage: Coverage, roots: seq<Group<Node>>)

  datatype ForestError = EmptyId | DuplicateSpan | MultipleRoots | Cyclic | NoRoot | MissingSpan | TooDeep

  type Index = map<string, RawSpan>

  // Fingerprints are parameters, so that the theorems can say what they need of one.
  datatype Keys = Keys(node: Node -> string, trace: Trace -> string)

  function ParentsOf(index: Index): (p: Parents)
    ensures p.Keys == index.Keys
  {
    map id | id in index :: index[id].parentId
  }

  // ---- Grouped trees ----

  function SemanticOf(index: Index, id: string): SemanticSpan {
    if id in index then index[id].semantic else SemanticSpan("", "", "", "", None)
  }

  /** The tree with equal siblings, as the fingerprint sees them, put into one group. */
  function Grouped(index: Index, t: Tree, key: Node -> string): Node {
    Node(SemanticOf(index, t.id), Gather(GroupedAll(index, t.children, key), key))
  }

  function GroupedAll(index: Index, trees: seq<Tree>, key: Node -> string): (nodes: seq<Node>)
    ensures |nodes| == |trees|
  {
    hide Gather;
    if trees == [] then []
    else GroupedAll(index, trees[..|trees| - 1], key) + [Grouped(index, trees[|trees| - 1], key)]
  }

  lemma {:induction false} GroupedAt(index: Index, trees: seq<Tree>, key: Node -> string)
    ensures forall i :: 0 <= i < |trees| ==> GroupedAll(index, trees, key)[i] == Grouped(index, trees[i], key)
  {
    hide Gather, Grouped;
    if trees != [] {
      GroupedAt(index, trees[..|trees| - 1], key);
    }
  }

  lemma GroupedAppend(index: Index, trees: seq<Tree>, t: Tree, key: Node -> string)
    ensures GroupedAll(index, trees + [t], key) == GroupedAll(index, trees, key) + [Grouped(index, t, key)]
  {
    assert (trees + [t])[..|trees|] == trees;
  }

  lemma TreesAppend(p: Parents, ids: seq<string>, id: string, fuel: nat)
    ensures TreesOf(p, ids + [id], fuel) == TreesOf(p, ids, fuel) + [TreeOf(p, id, fuel)]
  {
    assert (ids + [id])[..|ids|] == ids;
  }

  /** The node below a span: it exists exactly when the span is known and no span lies too
      deep below it. */
  method BuildNode(index: Index, id: string, depth: nat, key: Node -> string) returns (r: Result<Node, ForestError>)
    requires depth <= MAX_TRACE_DEPTH
    ensures r.Ok? <==> id in index && Fits(ParentsOf(index), id, MAX_TRACE_DEPTH - depth)
    ensures r.Ok? ==> r.value == Grouped(index, TreeOf(ParentsOf(index), id, MAX_TRACE_DEPTH - depth), key)
    ensures r.Err? ==> r.error == TooDeep || r.error == MissingSpan
    decreases MAX_TRACE_DEPTH - depth, 1
  {
    if depth >= MAX_TRACE_DEPTH {
      return Err(TooDeep);
    }
    if id !in index {
      return Err(MissingSpan);
    }
    hide ParentsOf, Grouped, Gather, TreeOf, Fits, Built, SemanticOf, Distinct, Runs, SortBy, Ascending, SortedKeys;
    var children := BuildChildren(index, id, depth, key);
    if children.Err? {
      return Err(children.error);
    }
    var groups := GroupBy(SortBy(children.value, key), key);
    BuiltAll(index, id, MAX_TRACE_DEPTH - depth, key, children.value, groups);
    r := Ok(Node(index[id].semantic, groups));
  }

  method BuildChildren(index: Index, id: string, depth: nat, key: Node -> string)
    returns (r: Result<seq<Node>, ForestError>)
    requires depth < MAX_TRACE_DEPTH && id in index
    ensures r.Ok? ==> Built(index, ParentsOf(index), SortedKeys(index.Keys), |index.Keys|, id,
                      MAX_TRACE_DEPTH - depth - 1, key, r.value)
    ensures r.Err? ==> !Fits(ParentsOf(index), id, MAX_TRACE_DEPTH - depth)
    ensures r.Err? ==> r.error == TooDeep || r.error == MissingSpan
    decreases MAX_TRACE_DEPTH - depth, 0
  {
    hide ParentsOf, Grouped, TreeOf, Fits, Built, SortedKeys;
    ghost var p := ParentsOf(index);
    ghost var fuel: nat := MAX_TRACE_DEPTH - depth - 1;
    var keys := SortedKeys(index.Keys);
    var children: seq<Node> := [];
    NothingBuilt(index, p, keys, id, fuel, key);
    for i := 0 to |keys|
      invariant Built(index, p, keys, i, id, fuel, key, children)
    {
      BuiltNext(index, p, keys, i, id, fuel, key, children);
      if index[keys[i]].parentId == id {
        var child := BuildNode(index, keys[i], depth + 1, key);
        if child.Err? {
          return Err(child.error);
        }
        children := children + [child.value];
      }
    }
    r := Ok(children);
  }

  // The children found among the keys all fit, and these are their nodes.
  ghost predicate Built(index: Index, p: Parents, keys: seq<string>, n: nat,
                        id: string, fuel: nat, key: Node -> string, nodes: seq<Node>)
    requires Distinct(keys) && n <= |keys| && forall k :: k in keys ==> k in p
  {
    && (forall child :: child in ChildrenAmong(p, keys[..n], id) ==> Fits(p, child, fuel))
    && nodes == GroupedAll(index, TreesOf(p, ChildrenAmong(p, keys[..n], id), fuel), key)
  }

  lemma NothingBuilt(index: Index, p: Parents, keys: seq<string>, id: string, fuel: nat, key: Node -> string)
    requires Distinct(keys) && forall k :: k in keys ==> k in p
    ensures Built(index, p, keys, 0, id, fuel, key, [])
  {
    NoTrees(index, p, fuel, key);
  }

  lemma BuiltNext(index: Index, p: Parents, keys: seq<string>, i: nat, id: string, fuel: nat, key: Node -> string,
                  nodes: seq<Node>)
    requires p == ParentsOf(index) && Distinct(keys) && i < |keys| && forall k :: k in keys ==> k in p
    requires Built(index, p, keys, i, id, fuel, key, nodes)
    ensures index[keys[i]].parentId != id ==> Built(index, p, keys, i + 1, id, fuel, key, nodes)
    ensures index[keys[i]].parentId == id && Fits(p, keys[i], fuel) ==>
              Built(index, p, keys, i + 1, id, fuel, key, nodes + [Grouped(index, TreeOf(p, keys[i], fuel), key)])
    ensures index[keys[i]].parentId == id && !Fits(p, keys[i], fuel) ==> !Fits(p, id, fuel + 1)
  {
    hide Grouped, GroupedAll, TreeOf, TreesOf, Fits, ChildrenAmong;
    ChildrenAmongStep(p, keys, i, id);
    ParentIn(index, keys[i]);
    if p[keys[i]] == id {
      if Fits(p, keys[i], fuel) {
        TreesAppend(p, ChildrenAmong(p, keys[..i], id), keys[i], fuel);
        GroupedAppend(index, TreesOf(p, ChildrenAmong(p, keys[..i], id), fuel), TreeOf(p, keys[i], fuel), key);
      } else {
        UnfitChildSpoils(p, id, keys[i], fuel);
      }
    }
  }

  lemma BuiltAll(index: Index, id: string, fuel: nat, key: Node -> string, nodes: seq<Node>, groups: seq<Group<Node>>)
    requires id in index && fuel > 0 && groups == Runs(SortBy(nodes, key), key)
    requires Built(index, ParentsOf(index), SortedKeys(index.Keys), |index.Keys|, id, fuel - 1, key, nodes)
    ensures Fits(ParentsOf(index), id, fuel)
    ensures Node(index[id].semantic, groups) == Grouped(index, TreeOf(ParentsOf(index), id, fuel), key)
  {
    hide Fits, Grouped, GroupedAll, TreeOf, TreesOf, ChildrenAmong, Built, Runs, SortBy, SortedKeys, ParentsOf,
         SemanticOf;
    var p := ParentsOf(index);
    BuiltWhole(index, id, fuel - 1, key, nodes);
    AllChildrenFit(p, id, fuel);
    GroupedTree(index, p, id, fuel, key);
    GatherIs(nodes, key);
    SemanticIs(index, id);
  }

  lemma SemanticIs(index: Index, id: string)
    requires id in index
    ensures SemanticOf(index, id) == index[id].semantic
  {
  }

  lemma BuiltWhole(index: Index, id: string, fuel: nat, key: Node -> string, nodes: seq<Node>)
    requires Built(index, ParentsOf(index), SortedKeys(index.Keys), |index.Keys|, id, fuel, key, nodes)
    ensures var p := ParentsOf(index);
            var ids := ChildrenAmong(p, SortedKeys(p.Keys), id);
            && (forall child :: child in ids ==> Fits(p, child, fuel))
            && nodes == GroupedAll(index, TreesOf(p, ids, fuel), key)
  {
    hide Fits, Grouped, GroupedAll, TreeOf, TreesOf, ChildrenAmong;
    var keys := SortedKeys(index.Keys);
    assert keys[..|keys|] == keys;
  }

  lemma NoTrees(index: Index, p: Parents, fuel: nat, key: Node -> string)
    ensures GroupedAll(index, TreesOf(p, [], fuel), key) == []
  {
  }

  lemma ChildrenAmongStep(p: Parents, keys: seq<string>, i: nat, id: string)
    requires Distinct(keys) && i < |keys| && forall k :: k in keys ==> k in p
    ensures ChildrenAmong(p, keys[..i + 1], id) ==
            if p[keys[i]] == id then ChildrenAmong(p, keys[..i], id) + [keys[i]] else ChildrenAmong(p, keys[..i], id)
  {
    assert keys[..i + 1][..i] == keys[..i];
  }

  lemma ParentIn(index: Index, id: string)
    requires id in index
    ensures ParentsOf(index)[id] == index[id].parentId
  {
  }

  lemma UnfitChildSpoils(p: Parents, id: string, child: string, fuel: nat)
    requires child in p && p[child] == id && !Fits(p, child, fuel)
    ensures !Fits(p, id, fuel + 1)
  {
    assert child in ChildIds(p, id);
  }

  lemma AllChildrenFit(p: Parents, id: string, fuel: nat)
    requires fuel > 0
    ensures (forall child :: child in ChildrenAmong(p, SortedKeys(p.Keys), id) ==> Fits(p, child, fuel - 1)) ==>
            Fits(p, id, fuel)
  {
  }

  lemma GroupedTree(index: Index, p: Parents, id: string, fuel: nat, key: Node -> string)
    requires fuel > 0
    ensures Grouped(index, TreeOf(p, id, fuel), key) ==
            Node(SemanticOf(index, id),
                 Gather(GroupedAll(index, TreesOf(p, ChildrenAmong(p, SortedKeys(p.Keys), id), fuel - 1), key), key))
  {
  }

  // ---- One trace ----

  /** How many of the spans name no parent at all. */
  function ExplicitRoots(p: Parents, keys: seq<string>): nat
    requires forall k :: k in keys ==> k in p
  {
    if keys == [] then 0
    else ExplicitRoots(p, keys[..|keys| - 1]) + if p[keys[|keys| - 1]] == "" then 1 else 0
  }

  ghost predicate OneExplicitRoot(p: Parents) {
    forall a, b :: a in p && b in p && p[a] == "" && p[b] == "" ==> a == b
  }

  ghost predicate ParentMissing(p: Parents) {
    exists id :: id in p && p[id] != "" && p[id] !in p
  }

  ghost predicate TraceAcceptable(p: Parents) {
    OneExplicitRoot(p) && Acyclic(p) && Shallow(p, MAX_TRACE_DEPTH)
  }

  ghost function TraceOf(index: Index, key: Node -> string): Trace {
    var p := ParentsOf(index);
    Trace(if ParentMissing(p) then Partial else Complete,
          Gather(GroupedAll(index, TreesOf(p, Roots(p), MAX_TRACE_DEPTH), key), key))
  }

  lemma {:induction false} ExplicitRootCount(p: Parents, keys: seq<string>)
    requires Distinct(keys) && forall k :: k in keys ==> k in p
    ensures ExplicitRoots(p, keys) > 0 <==> exists k :: k in keys && p[k] == ""
    ensures ExplicitRoots(p, keys) <= 1 <==> forall a, b :: a in keys && b in keys && p[a] == "" && p[b] == "" ==>
                                             a == b
  {
    if keys != [] {
      var n := |keys| - 1;
      assert keys == keys[..n] + [keys[n]];
      ExplicitRootCount(p, keys[..n]);
      assert forall k :: k in keys[..n] ==> k in keys && k != keys[n];
    }
  }

  /** When no parent is missing, a trace without cycles has an explicit root. */
  lemma ExplicitRootExists(p: Parents)
    requires p != map[] && Acyclic(p) && !ParentMissing(p)
    ensures exists id :: id in p && p[id] == ""
  {
    RootExists(p);
    var root := Roots(p)[0];
    assert root in Roots(p);
  }

  method BuildTrace(index: Index, key: Node -> string) returns (r: Result<Trace, ForestError>)
    requires index != map[] && "" !in index
    ensures r.Ok? <==> TraceAcceptable(ParentsOf(index))
    ensures r.Ok? ==> r.value == TraceOf(index, key)
    ensures r.Err? ==> r.error != NoRoot
  {
    hide Acyclic, Shallow, HasLevel, TreesOf, GroupedAll, Gather, Fits, Roots, SortedKeys, ParentsOf, ParentMissing,
         OneExplicitRoot;
    var p := ParentsOf(index);
    var keys := SortedKeys(index.Keys);
    var explicitRoots := CountExplicitRoots(p, keys);
    if explicitRoots > 1 {
      return Err(MultipleRoots);
    }
    var acyclic := CheckAcyclic(p, keys);
    if !acyclic {
      return Err(Cyclic);
    }
    var partial := FindMissingParent(p, keys);
    var rootIds := Roots(p);
    RootExists(p);
    if rootIds == [] {
      return Err(NoRoot);
    }
    RootsFitIffShallow(p, MAX_TRACE_DEPTH);
    var roots := BuildRoots(index, rootIds, key);
    if roots.Err? {
      return Err(roots.error);
    }
    var groups := GroupBy(SortBy(roots.value, key), key);
    GatherIs(roots.value, key);
    if !partial {
      ExplicitRootExists(p);
    }
    var coverage := if !partial && explicitRoots == 1 then Complete else Partial;
    r := Ok(Trace(coverage, groups));
  }

  method CountExplicitRoots(p: Parents, keys: seq<string>) returns (n: nat)
    requires Distinct(keys) && forall k :: k in keys <==> k in p
    ensures n <= 1 <==> OneExplicitRoot(p)
    ensures n > 0 <==> exists id :: id in p && p[id] == ""
  {
    n := 0;
    for i := 0 to |keys|
      invariant n == ExplicitRoots(p, keys[..i])
    {
      assert keys[..i + 1][..i] == keys[..i];
      if p[keys[i]] == "" {
        n := n + 1;
      }
    }
    assert keys[..|keys|] == keys;
    ExplicitRootCount(p, keys);
  }

  method CheckAcyclic(p: Parents, keys: seq<string>) returns (ok: bool)
    requires forall k :: k in keys <==> k in p
    ensures ok <==> Acyclic(p)
  {
    hide HasLevel;
    for i := 0 to |keys|
      invariant forall k :: k in keys[..i] ==> HasLevel(p, k)
    {
      ok := EnsureAcyclic(p, keys[i]);
      if !ok {
        return;
      }
      assert keys[..i + 1] == keys[..i] + [keys[i]];
    }
    assert keys[..|keys|] == keys;
    ok := true;
  }

  method FindMissingParent(p: Parents, keys: seq<string>) returns (partial: bool)
    requires forall k :: k in keys <==> k in p
    ensures partial <==> ParentMissing(p)
  {
    for i := 0 to |keys|
      invariant forall k :: k in keys[..i] ==> p[k] == "" || p[k] in p
    {
      if p[keys[i]] != "" && p[keys[i]] !in p {
        return true;
      }
      assert keys[..i + 1] == keys[..i] + [keys[i]];
    }
    assert keys[..|keys|] == keys;
    partial := false;
  }

  method BuildRoots(index: Index, ids: seq<string>, key: Node -> string) returns (r: Result<seq<Node>, ForestError>)
    requires forall id :: id in ids ==> id in index
    ensures r.Ok? <==> forall id :: id in ids ==> Fits(ParentsOf(index), id, MAX_TRACE_DEPTH)
    ensures r.Ok? ==> r.value == GroupedAll(index, TreesOf(ParentsOf(index), ids, MAX_TRACE_DEPTH), key)
    ensures r.Err? ==> r.error != NoRoot
  {
    hide ParentsOf, Grouped, GroupedAll, TreeOf, TreesOf, Fits;
    ghost var p := ParentsOf(index);
    var nodes: seq<Node> := [];
    NoTrees(index, p, MAX_TRACE_DEPTH, key);
    for i := 0 to |ids|
      invariant forall id :: id in ids[..i] ==> Fits(p, id, MAX_TRACE_DEPTH)
      invariant nodes == GroupedAll(index, TreesOf(p, ids[..i], MAX_TRACE_DEPTH), key)
    {
      var node := BuildNode(index, ids[i], 0, key);
      if node.Err? {
        return Err(node.error);
      }
      assert ids[..i + 1] == ids[..i] + [ids[i]];
      TreesAppend(p, ids[..i], ids[i], MAX_TRACE_DEPTH);
      GroupedAppend(index, TreesOf(p, ids[..i], MAX_TRACE_DEPTH), TreeOf(p, ids[i], MAX_TRACE_DEPTH), key);
      nodes := nodes + [node.value];
    }
    assert ids[..|ids|] == ids;
    r := Ok(nodes);
  }

  // ---- The forest ----

  function OfTrace(spans: seq<RawSpan>, traceId: string): seq<RawSpan> {
    if spans == [] then []
    else
      var before, last := OfTrace(spans[..|spans| - 1], traceId), spans[|spans| - 1];
      if last.traceId == traceId then before + [last] else before
  }

  function IndexOf(spans: seq<RawSpan>): (index: Index)
    ensures forall id :: id in index <==> exists i :: 0 <= i < |spans| && spans[i].spanId == id
  {
    if spans == [] then map[] else IndexOf(spans[..|spans| - 1])[spans[|spans| - 1].spanId := spans[|spans| - 1]]
  }

  function TraceIds(spans: seq<RawSpan>): (ids: set<string>)
    ensures forall id :: id in ids <==> exists i :: 0 <= i < |spans| && spans[i].traceId == id
  {
    if spans == [] then {} else TraceIds(spans[..|spans| - 1]) + {spans[|spans| - 1].traceId}
  }

  function IndexIn(spans: seq<RawSpan>, traceId: string): Index {
    IndexOf(OfTrace(spans, traceId))
  }

  ghost predicate Identified(spans: seq<RawSpan>) {
    && (forall s :: s in spans ==> s.traceId != "" && s.spanId != "")
    && (forall i, j :: 0 <= i < j < |spans| ==>
       spans[i].traceId != spans[j].traceId || spans[i].spanId != spans[j].spanId)
  }

  ghost predicate Acceptable(spans: seq<RawSpan>) {
    Identified(spans) && forall id :: id in TraceIds(spans) ==> TraceAcceptable(ParentsOf(IndexIn(spans, id)))
  }

  ghost function TracesOf(spans: seq<RawSpan>, ids: seq<string>, key: Node -> string): (traces: seq<Trace>)
    ensures |traces| == |ids|
  {
    hide TraceOf, IndexIn;
    if ids == [] then []
    else TracesOf(spans, ids[..|ids| - 1], key) + [TraceOf(IndexIn(spans, ids[|ids| - 1]), key)]
  }

  ghost function ForestOf(spans: seq<RawSpan>, keys: Keys): seq<Group<Trace>> {
    Gather(TracesOf(spans, SortedKeys(TraceIds(spans)), keys.node), keys.trace)
  }

  method Build(spans: seq<RawSpan>, keys: Keys) returns (r: Result<seq<Group<Trace>>, ForestError>)
    ensures r.Ok? <==> Acceptable(spans)
    ensures r.Ok? ==> r.value == ForestOf(spans, keys)
    ensures r.Err? ==> r.error != NoRoot
  {
    if spans == [] {
      return Ok([]);
    }
    hide TraceAcceptable, TracesOf, Gather, Identified, SortedKeys, IndexOf, OfTrace, TraceIds;
    var byTrace := SplitByTrace(spans);
    if byTrace.Err? {
      return Err(byTrace.error);
    }
    var ids := SortedKeys(byTrace.value.Keys);
    var traces := BuildTraces(spans, byTrace.value, ids, keys.node);
    if traces.Err? {
      return Err(traces.error);
    }
    var groups := GroupBy(SortBy(traces.value, keys.trace), keys.trace);
    GatherIs(traces.value, keys.trace);
    r := Ok(groups);
  }

  method BuildTraces(spans: seq<RawSpan>, byTrace: map<string, seq<RawSpan>>, ids: seq<string>, key: Node -> string)
    returns (r: Result<seq<Trace>, ForestError>)
    requires Identified(spans) && byTrace.Keys == TraceIds(spans)
    requires forall id :: id in byTrace ==> byTrace[id] == OfTrace(spans, id)
    requires forall id :: id in ids ==> id in byTrace
    ensures r.Ok? <==> forall id :: id in ids ==> TraceAcceptable(ParentsOf(IndexIn(spans, id)))
    ensures r.Ok? ==> r.value == TracesOf(spans, ids, key)
    ensures r.Err? ==> r.error != NoRoot
  {
    hide TraceAcceptable, TraceOf, TracesOf, ParentsOf, Identified, IndexOf, OfTrace, TraceIds;
    var traces: seq<Trace> := [];
    TracesOfNone(spans, key);
    for i := 0 to |ids|
      invariant forall id :: id in ids[..i] ==> TraceAcceptable(ParentsOf(IndexIn(spans, id)))
      invariant traces == TracesOf(spans, ids[..i], key)
    {
      var index := MakeIndex(byTrace[ids[i]]);
      SpansInTrace(spans, ids[i]);
      var trace := BuildTrace(index, key);
      if trace.Err? {
        return Err(trace.error);
      }
      assert ids[..i + 1] == ids[..i] + [ids[i]];
      TracesAppend(spans, ids[..i], ids[i], key);
      traces := traces + [trace.value];
    }
    assert ids[..|ids|] == ids;
    r := Ok(traces);
  }

  lemma TracesOfNone(spans: seq<RawSpan>, key: Node -> string)
    ensures TracesOf(spans, [], key) == []
  {
  }

  lemma TracesAppend(spans: seq<RawSpan>, ids: seq<string>, id: string, key: Node -> string)
    ensures TracesOf(spans, ids + [id], key) == TracesOf(spans, ids, key) + [TraceOf(IndexIn(spans, id), key)]
  {
    hide TraceOf, IndexIn;
    assert (ids + [id])[..|ids|] == ids;
  }

  lemma SpansInTrace(spans: seq<RawSpan>, id: string)
    requires Identified(spans) && id in TraceIds(spans)
    ensures IndexIn(spans, id) != map[] && "" !in IndexIn(spans, id)
  {
    OfTraceHolds(spans, id);
    var i :| 0 <= i < |spans| && spans[i].traceId == id;
    assert spans[i] in OfTrace(spans, id);
    var j :| 0 <= j < |OfTrace(spans, id)| && OfTrace(spans, id)[j] == spans[i];
    assert spans[i].spanId in IndexIn(spans, id);
  }

  lemma {:induction false} OfTraceHolds(spans: seq<RawSpan>, id: string)
    ensures forall s :: s in OfTrace(spans, id) <==> s in spans && s.traceId == id
  {
    if spans != [] {
      OfTraceHolds(spans[..|spans| - 1], id);
      assert spans == spans[..|spans| - 1] + [spans[|spans| - 1]];
    }
  }

  method MakeIndex(spans: seq<RawSpan>) returns (index: Index)
    ensures index == IndexOf(spans)
  {
    index := map[];
    for i := 0 to |spans|
      invariant index == IndexOf(spans[..i])
    {
      assert spans[..i + 1][..i] == spans[..i];
      index := index[spans[i].spanId := spans[i]];
    }
    assert spans[..|spans|] == spans;
  }

  // The identities and the spans by trace, as far as they have been read.
  ghost predicate Known(spans: seq<RawSpan>, identities: set<(string, string)>) {
    && (forall s :: s in spans ==> (s.traceId, s.spanId) in identities)
    && (forall x :: x in identities ==> exists s :: s in spans && x == (s.traceId, s.spanId))
  }

  ghost predicate Filed(spans: seq<RawSpan>, byTrace: map<string, seq<RawSpan>>) {
    && byTrace.Keys == TraceIds(spans)
    && (forall id :: id in byTrace ==> byTrace[id] == OfTrace(spans, id))
    && (forall id :: id !in byTrace ==> OfTrace(spans, id) == [])
  }

  lemma KnownNext(spans: seq<RawSpan>, identities: set<(string, string)>, span: RawSpan)
    requires Known(spans, identities) && Identified(spans)
    ensures Known(spans + [span], identities + {(span.traceId, span.spanId)})
    ensures Identified(spans + [span]) <==>
            span.traceId != "" && span.spanId != "" && (span.traceId, span.spanId) !in identities
  {
    var next := spans + [span];
    forall x | x in identities + {(span.traceId, span.spanId)}
      ensures exists s :: s in next && x == (s.traceId, s.spanId)
    {
      if x in identities {
        var s :| s in spans && x == (s.traceId, s.spanId);
        assert s in next;
      } else {
        assert span in next;
      }
    }
    assert next[|spans|] == span;
    assert forall i :: 0 <= i < |spans| ==> next[i] == spans[i] && spans[i] in spans;
  }

  lemma FiledNext(spans: seq<RawSpan>, byTrace: map<string, seq<RawSpan>>, span: RawSpan)
    requires Filed(spans, byTrace)
    ensures Filed(spans + [span], byTrace[span.traceId := (if span.traceId in byTrace then byTrace[span.traceId]
            else []) + [span]])
  {
    assert (spans + [span])[..|spans|] == spans;
  }

  lemma IdentifiedPrefix(spans: seq<RawSpan>, n: nat)
    requires n <= |spans| && Identified(spans)
    ensures Identified(spans[..n])
  {
    assert forall s :: s in spans[..n] ==> s in spans;
  }

  method SplitByTrace(spans: seq<RawSpan>) returns (r: Result<map<string, seq<RawSpan>>, ForestError>)
    ensures r.Ok? <==> Identified(spans)
    ensures r.Ok? ==> r.value.Keys == TraceIds(spans) && forall id :: id in r.value ==>
            r.value[id] == OfTrace(spans, id)
    ensures r.Err? ==> r.error != NoRoot
  {
    hide Known, Identified, TraceIds, OfTrace;
    var byTrace: map<string, seq<RawSpan>> := map[];
    var identities: set<(string, string)> := {};
    NothingRead();
    for i := 0 to |spans|
      invariant Identified(spans[..i]) && Known(spans[..i], identities) && Filed(spans[..i], byTrace)
    {
      var span := spans[i];
      assert spans[..i + 1] == spans[..i] + [span];
      KnownNext(spans[..i], identities, span);
      FiledNext(spans[..i], byTrace, span);
      if span.traceId == "" || span.spanId == "" || (span.traceId, span.spanId) in identities {
        if Identified(spans) {
          IdentifiedPrefix(spans, i + 1);
        }
        return Err(if span.traceId == "" || span.spanId == "" then EmptyId else DuplicateSpan);
      }
      identities := identities + {(span.traceId, span.spanId)};
      byTrace := byTrace[span.traceId := (if span.traceId in byTrace then byTrace[span.traceId] else []) + [span]];
    }
    assert spans[..|spans|] == spans;
    r := Ok(byTrace);
  }

  lemma NothingRead()
    ensures Identified([]) && Known([], {}) && Filed([], map[])
  {
  }
}
