/** Parent chains of a trace's spans: which end, how long they are, and the trees they form. */
module ParentChains {
  import opened Basics
  import opened Ordering

  // Span ID to parent ID; the empty text stands for no parent.
  type Parents = map<string, string>

  predicate HasParent(p: Parents, id: string) {
    id in p && p[id] != "" && p[id] in p
  }

  /** d parent steps lead from the span to one without a known parent. */
  ghost predicate Level(p: Parents, id: string, d: nat)
    decreases d
  {
    id in p && if d == 0 then !HasParent(p, id) else HasParent(p, id) && Level(p, p[id], d - 1)
  }

  /** k parent steps lead from one span to another. */
  ghost predicate Steps(p: Parents, from: string, to: string, k: nat)
    decreases k
  {
    from in p && if k == 0 then from == to else HasParent(p, from) && Steps(p, p[from], to, k - 1)
  }

  ghost predicate HasLevel(p: Parents, id: string) {
    exists d: nat :: Level(p, id, d)
  }

  /** Following parents from the span comes to an end. */
  ghost predicate ChainEnds(p: Parents, id: string) {
    id !in p || HasLevel(p, id)
  }

  ghost predicate Acyclic(p: Parents) {
    forall id :: id in p ==> HasLevel(p, id)
  }

  lemma {:induction false} LevelUnique(p: Parents, id: string, d: nat, e: nat)
    requires Level(p, id, d) && Level(p, id, e)
    ensures d == e
    decreases d
  {
    if d > 0 && e > 0 {
      LevelUnique(p, p[id], d - 1, e - 1);
    }
  }

  lemma {:induction false} StepsLowerLevel(p: Parents, from: string, to: string, k: nat, d: nat)
    requires Steps(p, from, to, k) && Level(p, from, d)
    ensures k <= d && Level(p, to, d - k)
    decreases k
  {
    if k > 0 {
      StepsLowerLevel(p, p[from], to, k - 1, d - 1);
    }
  }

  lemma {:induction false} StepsRaiseLevel(p: Parents, from: string, to: string, k: nat, d: nat)
    requires Steps(p, from, to, k) && Level(p, to, d)
    ensures Level(p, from, d + k)
    decreases k
  {
    if k > 0 {
      StepsRaiseLevel(p, p[from], to, k - 1, d);
    }
  }

  lemma {:induction false} StepsExtend(p: Parents, from: string, to: string, k: nat)
    requires Steps(p, from, to, k) && HasParent(p, to)
    ensures Steps(p, from, p[to], k + 1)
    decreases k
  {
    if k > 0 {
      StepsExtend(p, p[from], to, k - 1);
    } else {
      assert Steps(p, p[to], p[to], 0);
    }
  }

  lemma {:induction false} StepsPeel(p: Parents, from: string, to: string, k: nat) returns (child: string)
    requires Steps(p, from, to, k) && k > 0
    ensures HasParent(p, child) && p[child] == to && Steps(p, from, child, k - 1)
    decreases k
  {
    if k == 1 {
      child := from;
    } else {
      child := StepsPeel(p, p[from], to, k - 1);
    }
  }

  lemma {:induction false} StepsTarget(p: Parents, from: string, a: string, b: string, k: nat)
    requires Steps(p, from, a, k) && Steps(p, from, b, k)
    ensures a == b
    decreases k
  {
    if k > 0 {
      StepsTarget(p, p[from], a, b, k - 1);
    }
  }

  /** A span that is its own ancestor has no level. */
  lemma CycleHasNoLevel(p: Parents, id: string, k: nat)
    requires Steps(p, id, id, k) && k > 0
    ensures !HasLevel(p, id)
  {
    if HasLevel(p, id) {
      var d: nat :| Level(p, id, d);
      StepsLowerLevel(p, id, id, k, d);
      LevelUnique(p, id, d, d - k);
    }
  }

  lemma ChainStep(p: Parents, id: string)
    requires HasParent(p, id)
    ensures HasLevel(p, id) <==> HasLevel(p, p[id])
  {
    if HasLevel(p, id) {
      var d: nat :| Level(p, id, d);
      assert Level(p, p[id], d - 1);
    }
    if HasLevel(p, p[id]) {
      var d: nat :| Level(p, p[id], d);
      assert Level(p, id, d + 1);
    }
  }

  // What a walk from `start` has established when it stands at `current`.
  ghost predicate Walked(p: Parents, start: string, seen: set<string>, current: string) {
    && (start in p ==> current in p && (HasLevel(p, start) <==> HasLevel(p, current)))
    && (start !in p ==> current !in p && seen == {})
    && (forall id :: id in seen ==> id in p && exists k: nat :: k > 0 && Steps(p, id, current, k))
  }

  lemma WalkedOn(p: Parents, start: string, seen: set<string>, current: string)
    requires Walked(p, start, seen, current) && HasParent(p, current)
    ensures Walked(p, start, seen + {current}, p[current])
  {
    ChainStep(p, current);
    forall id | id in seen + {current}
      ensures id in p && exists k: nat :: k > 0 && Steps(p, id, p[current], k)
    {
      if id in seen {
        var k: nat :| k > 0 && Steps(p, id, current, k);
        StepsExtend(p, id, current, k);
      } else {
        assert Steps(p, current, current, 0);
        StepsExtend(p, current, current, 0);
      }
    }
  }

  lemma WalkedBack(p: Parents, start: string, seen: set<string>, current: string)
    requires Walked(p, start, seen, current) && current in seen
    ensures !ChainEnds(p, start)
  {
    var k: nat :| k > 0 && Steps(p, current, current, k);
    CycleHasNoLevel(p, current, k);
  }

  /** The cycle check of the forest builder. */
  method EnsureAcyclic(p: Parents, start: string) returns (ok: bool)
    ensures ok <==> ChainEnds(p, start)
  {
    hide HasLevel;
    var seen: set<string> := {};
    var current := start;
    while current in p
      invariant Walked(p, start, seen, current)
      decreases p.Keys - seen
    {
      if current in seen {
        WalkedBack(p, start, seen, current);
        return false;
      }
      if p[current] == "" || p[current] !in p {
        RootHasLevel(p, current);
        return true;
      }
      WalkedOn(p, start, seen, current);
      seen := seen + {current};
      current := p[current];
    }
    return true;
  }

  lemma RootHasLevel(p: Parents, id: string)
    requires id in p && !HasParent(p, id)
    ensures HasLevel(p, id)
  {
    assert Level(p, id, 0);
  }

  // ---- The validator's topology check ----

  /** The parents recorded for one trace. */
  ghost function InTrace(parents: map<(string, string), string>, trace: string): Parents {
    map key | key in parents && key.0 == trace :: key.1 := parents[key]
  }

  /** The check that the validator makes for a span: it keeps a list of the spans seen
      and goes one step past the last known span. */
  method ParentTopologyValid(trace: string, span: string, parents: map<(string, string), string>) returns (ok: bool)
    ensures ok <==> ChainEnds(InTrace(parents, Lower(trace)), Lower(span))
  {
    hide HasLevel, Lower;
    var traceId := Lower(trace);
    ghost var p := InTrace(parents, traceId);
    var seen: seq<string> := [];
    ghost var known: set<string> := {};
    var current := Lower(span);
    while true
      invariant forall i :: 0 <= i < |seen| ==> seen[i] in known
      invariant forall id :: id in known ==> id in seen
      invariant known <= p.Keys
      invariant current in p || seen == [] ==> Walked(p, Lower(span), known, current)
      invariant current !in p ==> ChainEnds(p, Lower(span)) && current !in known
      decreases p.Keys - known, current in p
    {
      assert forall id :: id in p <==> (traceId, id) in parents;
      if current in seen {
        WalkedBack(p, Lower(span), known, current);
        return false;
      }
      if (traceId, current) !in parents {
        return true;
      }
      assert p[current] == parents[(traceId, current)];
      seen := seen + [current];
      if parents[(traceId, current)] == "" {
        RootHasLevel(p, current);
        return true;
      }
      if HasParent(p, current) {
        WalkedOn(p, Lower(span), known, current);
      } else {
        RootHasLevel(p, current);
      }
      known := known + {current};
      current := parents[(traceId, current)];
    }
  }

  /** On the same spans the two checks give the same verdict. */
  lemma SameVerdict(p: Parents, trace: string, parents: map<(string, string), string>, id: string)
    requires forall key :: key in parents && key.0 == trace ==> key.1 in p
    requires forall key :: key in p ==> (trace, key) in parents && parents[(trace, key)] == p[key]
    ensures ChainEnds(InTrace(parents, trace), id) <==> ChainEnds(p, id)
  {
    var q := InTrace(parents, trace);
    forall key
      ensures key in q <==> key in p
      ensures key in p ==> q[key] == p[key]
    {
      assert key in p ==> (trace, key) in parents;
    }
    assert q == p;
  }

  // ---- Trees ----

  datatype Tree = Tree(id: string, children: seq<Tree>)

  function ChildrenAmong(p: Parents, keys: seq<string>, id: string): (r: seq<string>)
    requires forall k :: k in keys ==> k in p
    requires Distinct(keys)
    ensures Distinct(r)
    ensures forall k :: k in r <==> k in keys && p[k] == id
  {
    if keys == [] then []
    else
      var last := keys[|keys| - 1];
      var before := ChildrenAmong(p, keys[..|keys| - 1], id);
      assert keys == keys[..|keys| - 1] + [last];
      if p[last] == id then before + [last] else before
  }

  /** The spans whose parent is the given one, in the order of their IDs. */
  function ChildIds(p: Parents, id: string): (r: seq<string>)
    ensures Distinct(r)
    ensures forall k :: k in r <==> k in p && p[k] == id
  {
    ChildrenAmong(p, SortedKeys(p.Keys), id)
  }

  /** No span lies `fuel` or more levels below this one. */
  ghost predicate Fits(p: Parents, id: string, fuel: nat)
    decreases fuel
  {
    fuel > 0 && forall child :: child in ChildIds(p, id) ==> Fits(p, child, fuel - 1)
  }

  /** The tree below a span, cut off after `fuel` levels. */
  function TreeOf(p: Parents, id: string, fuel: nat): Tree
    decreases fuel, 0
  {
    Tree(id, if fuel == 0 then [] else TreesOf(p, ChildIds(p, id), fuel - 1))
  }

  function TreesOf(p: Parents, ids: seq<string>, fuel: nat): (trees: seq<Tree>)
    ensures |trees| == |ids|
    ensures forall i :: 0 <= i < |ids| ==> trees[i] == TreeOf(p, ids[i], fuel)
    decreases fuel, 1, |ids|
  {
    if ids == [] then []
    else TreesOf(p, ids[..|ids| - 1], fuel) + [TreeOf(p, ids[|ids| - 1], fuel)]
  }

  /** Every span of the tree, as often as it occurs. */
  function Ids(t: Tree): multiset<string> {
    multiset{t.id} + IdsOfAll(t.children)
  }

  function IdsOfAll(trees: seq<Tree>): multiset<string> {
    if trees == [] then multiset{} else IdsOfAll(trees[..|trees| - 1]) + Ids(trees[|trees| - 1])
  }

  function Height(t: Tree): nat {
    1 + HeightOfAll(t.children)
  }

  function HeightOfAll(trees: seq<Tree>): nat {
    if trees == [] then 0
    else
      var before, last := HeightOfAll(trees[..|trees| - 1]), Height(trees[|trees| - 1]);
      if before < last then last else before
  }

  /** Every child of the tree is a child in the trace. */
  ghost predicate UnderParent(p: Parents, t: Tree) {
    forall i :: 0 <= i < |t.children| ==>
      t.children[i].id in p && p[t.children[i].id] == t.id && UnderParent(p, t.children[i])
  }

  lemma {:induction false} TreeShape(p: Parents, id: string, fuel: nat)
    requires fuel > 0
    ensures UnderParent(p, TreeOf(p, id, fuel))
    ensures Fits(p, id, fuel) ==> Height(TreeOf(p, id, fuel)) <= fuel
    decreases fuel
  {
    var ids := ChildIds(p, id);
    var trees := TreesOf(p, ids, fuel - 1);
    if fuel > 1 {
      forall i | 0 <= i < |trees|
        ensures UnderParent(p, trees[i]) && ids[i] in ids
        ensures Fits(p, id, fuel) ==> Height(trees[i]) <= fuel - 1
      {
        TreeShape(p, ids[i], fuel - 1);
      }
      if Fits(p, id, fuel) {
        HeightBound(trees, fuel - 1);
      }
    } else {
      forall i | 0 <= i < |trees|
        ensures UnderParent(p, trees[i]) && ids[i] in ids
      {
      }
      if Fits(p, id, fuel) && ids != [] {
        NothingFitsZero(p, ids[0]);
      }
    }
  }

  lemma NothingFitsZero(p: Parents, id: string)
    ensures !Fits(p, id, 0)
  {
  }

  lemma {:induction false} HeightBound(trees: seq<Tree>, bound: nat)
    requires forall i :: 0 <= i < |trees| ==> Height(trees[i]) <= bound
    ensures HeightOfAll(trees) <= bound
  {
    if trees != [] {
      HeightBound(trees[..|trees| - 1], bound);
    }
  }

  /** k parent steps lead to the span; no negative number of steps does. */
  ghost predicate Reaches(p: Parents, q: string, id: string, k: int) {
    k >= 0 && Steps(p, q, id, k)
  }

  ghost predicate Covers(p: Parents, ids: seq<string>, q: string, k: int) {
    exists id :: id in ids && Reaches(p, q, id, k)
  }

  lemma ReachesThroughChild(p: Parents, id: string, q: string, k: int)
    requires "" !in p
    ensures k > 0 && Reaches(p, q, id, k) ==> Covers(p, ChildIds(p, id), q, k - 1)
  {
    if k > 0 && Reaches(p, q, id, k) {
      var child := StepsPeel(p, q, id, k);
      assert child in ChildIds(p, id) && Reaches(p, q, child, k - 1);
    }
  }

  lemma ChildReachesThrough(p: Parents, id: string, child: string, q: string, k: int)
    requires "" !in p && id in p && child in p && p[child] == id && Reaches(p, q, child, k)
    ensures Reaches(p, q, id, k + 1)
  {
    StepsExtend(p, q, child, k);
  }

  lemma ReachesItself(p: Parents, id: string, d: nat, q: string, e: nat)
    requires Level(p, id, d) && Level(p, q, e)
    ensures q == id ==> d == e && Reaches(p, q, id, 0)
    ensures d == e && Reaches(p, q, id, 0) ==> q == id
  {
    if q == id {
      LevelUnique(p, id, d, e);
    }
  }

  lemma CoversThroughChildren(p: Parents, id: string, d: nat, q: string, e: nat)
    requires "" !in p && Level(p, id, d) && Level(p, q, e)
    ensures q == id ==> !Covers(p, ChildIds(p, id), q, e - (d + 1))
    ensures Reaches(p, q, id, e - d) <==> q == id || Covers(p, ChildIds(p, id), q, e - (d + 1))
  {
    hide Level, Reaches, Steps, ChildIds, HasParent;
    ReachesItself(p, id, d, q, e);
    ReachesThroughChild(p, id, q, e - d);
    NothingBelowZero(p, ChildIds(p, id), q, id, e - d);
    LevelInTrace(p, id, d);
    if Covers(p, ChildIds(p, id), q, e - (d + 1)) {
      var child :| child in ChildIds(p, id) && Reaches(p, q, child, e - (d + 1));
      ChildReachesThrough(p, id, child, q, e - (d + 1));
    }
  }

  lemma NothingBelowZero(p: Parents, ids: seq<string>, q: string, id: string, k: int)
    ensures k <= 0 ==> !Covers(p, ids, q, k - 1)
    ensures k < 0 ==> !Reaches(p, q, id, k)
  {
  }

  lemma LevelInTrace(p: Parents, id: string, d: nat)
    requires Level(p, id, d)
    ensures id in p
  {
  }

  lemma CoversPrefix(p: Parents, ids: seq<string>, q: string, k: int)
    requires Distinct(ids) && ids != []
    ensures var n := |ids| - 1;
            && (Covers(p, ids, q, k) <==> (Covers(p, ids[..n], q, k) || Reaches(p, q, ids[n], k)))
            && !(Covers(p, ids[..n], q, k) && Reaches(p, q, ids[n], k))
  {
    var n := |ids| - 1;
    assert ids == ids[..n] + [ids[n]];
    if Covers(p, ids[..n], q, k) && Reaches(p, q, ids[n], k) {
      var id :| id in ids[..n] && Reaches(p, q, id, k);
      StepsTarget(p, q, id, ids[n], k);
    }
  }

  /** The tree of a span at level d holds a span at level e once if it lies e - d steps
      below it, and otherwise not at all. */
  lemma {:induction false} Occurrences(p: Parents, id: string, d: nat, fuel: nat, q: string, e: nat)
    requires "" !in p && Fits(p, id, fuel) && Level(p, id, d) && Level(p, q, e)
    ensures Ids(TreeOf(p, id, fuel))[q] == if Reaches(p, q, id, e - d) then 1 else 0
    decreases fuel, 0
  {
    hide Fits, Reaches, Covers, Level, TreeOf, TreesOf, Ids, IdsOfAll, ChildIds;
    ChildrenFit(p, id, fuel);
    ChildrenLevel(p, id, d);
    OccurrencesAmong(p, ChildIds(p, id), d + 1, fuel - 1, q, e);
    CoversThroughChildren(p, id, d, q, e);
    IdsOfTree(p, id, fuel, q);
  }

  lemma IdsOfTree(p: Parents, id: string, fuel: nat, q: string)
    requires fuel > 0
    ensures Ids(TreeOf(p, id, fuel))[q] ==
            (if q == id then 1 else 0) + IdsOfAll(TreesOf(p, ChildIds(p, id), fuel - 1))[q]
  {
    var t := TreeOf(p, id, fuel);
    assert Ids(t) == multiset{t.id} + IdsOfAll(t.children);
  }

  lemma ChildrenLevel(p: Parents, id: string, d: nat)
    requires "" !in p && Level(p, id, d)
    ensures forall child :: child in ChildIds(p, id) ==> Level(p, child, d + 1)
  {
    forall child | child in ChildIds(p, id)
      ensures Level(p, child, d + 1)
    {
      assert HasParent(p, child);
    }
  }

  lemma ChildrenFit(p: Parents, id: string, fuel: nat)
    requires Fits(p, id, fuel)
    ensures fuel > 0 && forall child :: child in ChildIds(p, id) ==> Fits(p, child, fuel - 1)
  {
  }

  lemma {:induction false} OccurrencesAmong(p: Parents, ids: seq<string>, d: nat, fuel: nat, q: string, e: nat)
    requires "" !in p && Distinct(ids) && Level(p, q, e)
    requires forall id :: id in ids ==> Fits(p, id, fuel) && Level(p, id, d)
    ensures IdsOfAll(TreesOf(p, ids, fuel))[q] == if Covers(p, ids, q, e - d) then 1 else 0
    decreases fuel, 1, |ids|
  {
    hide Fits, Reaches, Covers, Level, TreeOf, TreesOf, Ids, IdsOfAll;
    if ids == [] {
      CoversNone(p, q, e - d);
      IdsOfNone(p, fuel);
    } else {
      var n := |ids| - 1;
      assert forall id :: id in ids[..n] ==> id in ids;
      OccurrencesAmong(p, ids[..n], d, fuel, q, e);
      Occurrences(p, ids[n], d, fuel, q, e);
      IdsOfTrees(p, ids, fuel);
      CoversPrefix(p, ids, q, e - d);
    }
  }

  lemma IdsOfNone(p: Parents, fuel: nat)
    ensures IdsOfAll(TreesOf(p, [], fuel)) == multiset{}
  {
  }

  lemma IdsOfTrees(p: Parents, ids: seq<string>, fuel: nat)
    requires ids != []
    ensures var n := |ids| - 1;
            IdsOfAll(TreesOf(p, ids, fuel)) == IdsOfAll(TreesOf(p, ids[..n], fuel)) + Ids(TreeOf(p, ids[n], fuel))
  {
    var n := |ids| - 1;
    assert TreesOf(p, ids, fuel)[..n] == TreesOf(p, ids[..n], fuel);
  }

  lemma CoversNone(p: Parents, q: string, k: int)
    ensures !Covers(p, [], q, k)
  {
  }

  // ---- The whole trace ----

  function RootsAmong(p: Parents, keys: seq<string>): (r: seq<string>)
    requires Distinct(keys)
    ensures Distinct(r)
    ensures forall k :: k in r <==> k in keys && !HasParent(p, k)
  {
    if keys == [] then []
    else
      var last := keys[|keys| - 1];
      var before := RootsAmong(p, keys[..|keys| - 1]);
      assert keys == keys[..|keys| - 1] + [last];
      if HasParent(p, last) then before else before + [last]
  }

  /** The spans without a known parent, in the order of their IDs. */
  function Roots(p: Parents): (r: seq<string>)
    ensures Distinct(r)
    ensures forall k :: k in r <==> k in p && !HasParent(p, k)
  {
    RootsAmong(p, SortedKeys(p.Keys))
  }

  /** Every span has fewer than `limit` ancestors. */
  ghost predicate Shallow(p: Parents, limit: nat) {
    forall id :: id in p ==> exists d :: 0 <= d < limit && Level(p, id, d)
  }

  ghost predicate RootsFit(p: Parents, limit: nat) {
    forall r :: r in Roots(p) ==> Fits(p, r, limit)
  }

  lemma {:induction false} FitsBoundsSteps(p: Parents, id: string, fuel: nat, q: string, k: nat)
    requires "" !in p && Fits(p, id, fuel) && Steps(p, q, id, k)
    ensures k < fuel
    decreases k
  {
    hide Fits;
    ChildrenFit(p, id, fuel);
    if k > 0 {
      var child := StepsPeel(p, q, id, k);
      assert child in ChildIds(p, id);
      FitsBoundsSteps(p, child, fuel - 1, q, k - 1);
    }
  }

  lemma {:induction false} TooDeepSpan(p: Parents, id: string, fuel: nat) returns (q: string, k: nat)
    requires "" !in p && id in p && !Fits(p, id, fuel)
    ensures Steps(p, q, id, k) && k >= fuel
    decreases fuel
  {
    hide Fits, ChildIds, Steps, HasParent;
    if fuel == 0 {
      q, k := id, 0;
      StepsToItself(p, id);
    } else {
      var child := UnfitChild(p, id, fuel);
      var above;
      q, above := TooDeepSpan(p, child, fuel - 1);
      ExtendToParent(p, q, child, id, above);
      k := above + 1;
    }
  }

  lemma StepsToItself(p: Parents, id: string)
    requires id in p
    ensures Steps(p, id, id, 0)
  {
  }

  lemma ExtendToParent(p: Parents, from: string, child: string, id: string, k: nat)
    requires HasParent(p, child) && p[child] == id && Steps(p, from, child, k)
    ensures Steps(p, from, id, k + 1)
  {
    hide Steps;
    StepsExtend(p, from, child, k);
  }

  lemma UnfitChild(p: Parents, id: string, fuel: nat) returns (child: string)
    requires id in p && "" !in p && !Fits(p, id, fuel) && fuel > 0
    ensures HasParent(p, child) && p[child] == id && !Fits(p, child, fuel - 1)
  {
    child :| child in ChildIds(p, id) && !Fits(p, child, fuel - 1);
  }

  lemma {:induction false} RootOf(p: Parents, id: string, d: nat) returns (root: string)
    requires Level(p, id, d)
    ensures root in Roots(p) && Steps(p, id, root, d) && Level(p, root, 0)
    decreases d
  {
    hide Roots, HasParent;
    if d == 0 {
      root := id;
      assert Steps(p, id, root, 0);
    } else {
      root := RootOf(p, p[id], d - 1);
    }
  }

  /** Without cycles, the trees below the roots stay within the limit exactly when no
      span has that many ancestors. */
  lemma RootsFitIffShallow(p: Parents, limit: nat)
    requires "" !in p && Acyclic(p)
    ensures RootsFit(p, limit) <==> Shallow(p, limit)
  {
    hide Fits, Steps, Roots;
    if RootsFit(p, limit) {
      forall id | id in p
        ensures exists d :: 0 <= d < limit && Level(p, id, d)
      {
        var d: nat :| Level(p, id, d);
        var root := RootOf(p, id, d);
        FitsBoundsSteps(p, root, limit, id, d);
      }
    }
    if Shallow(p, limit) {
      forall r | r in Roots(p)
        ensures Fits(p, r, limit)
      {
        if !Fits(p, r, limit) {
          DeepSpanIsNotShallow(p, r, limit);
        }
      }
    }
  }

  lemma DeepSpanIsNotShallow(p: Parents, root: string, limit: nat)
    requires "" !in p && root in p && !HasParent(p, root) && !Fits(p, root, limit)
    ensures !Shallow(p, limit)
  {
    hide Fits;
    var q, k := TooDeepSpan(p, root, limit);
    assert Level(p, root, 0);
    StepsRaiseLevel(p, q, root, k, 0);
    if Shallow(p, limit) {
      var d :| 0 <= d < limit && Level(p, q, d);
      LevelUnique(p, q, d, k);
    }
  }

  lemma RootsAtLevelZero(p: Parents)
    ensures forall r :: r in Roots(p) ==> Level(p, r, 0)
  {
  }

  /** Every span occurs exactly once in the trees below the roots. */
  lemma SpanOnce(p: Parents, limit: nat, id: string)
    requires "" !in p && HasLevel(p, id) && RootsFit(p, limit)
    ensures IdsOfAll(TreesOf(p, Roots(p), limit))[id] == 1
  {
    hide Fits, Level, Steps, TreesOf, IdsOfAll, Roots, HasParent;
    var d: nat :| Level(p, id, d);
    var root := RootOf(p, id, d);
    assert Reaches(p, id, root, d);
    RootsAtLevelZero(p);
    OccurrencesAmong(p, Roots(p), 0, limit, id, d);
  }

  lemma {:induction false} OnlySpans(p: Parents, ids: seq<string>, fuel: nat, q: string)
    requires q !in p && forall id :: id in ids ==> id in p
    ensures IdsOfAll(TreesOf(p, ids, fuel))[q] == 0
    decreases fuel, |ids|
  {
    hide TreeOf, TreesOf, Ids, IdsOfAll, ChildIds;
    if ids == [] {
      IdsOfNone(p, fuel);
    } else {
      var n := |ids| - 1;
      OnlySpans(p, ids[..n], fuel, q);
      IdsOfTrees(p, ids, fuel);
      if fuel > 0 {
        OnlySpans(p, ChildIds(p, ids[n]), fuel - 1, q);
        IdsOfTree(p, ids[n], fuel, q);
      } else {
        IdsOfCut(p, ids[n], q);
      }
    }
  }

  lemma IdsOfCut(p: Parents, id: string, q: string)
    ensures Ids(TreeOf(p, id, 0))[q] == if q == id then 1 else 0
  {
    assert Ids(TreeOf(p, id, 0)) == multiset{id} + IdsOfAll([]);
  }

  /** The trees below the roots hold every span of the trace exactly once and nothing else. */
  lemma TreesPartitionTrace(p: Parents, limit: nat)
    requires "" !in p && Acyclic(p) && RootsFit(p, limit)
    ensures IdsOfAll(TreesOf(p, Roots(p), limit)) == multiset(p.Keys)
  {
    hide RootsFit, HasLevel;
    var ids := IdsOfAll(TreesOf(p, Roots(p), limit));
    forall q
      ensures ids[q] == multiset(p.Keys)[q]
    {
      if q in p {
        SpanOnce(p, limit, q);
      } else {
        OnlySpans(p, Roots(p), limit, q);
      }
    }
  }

  /** A trace without cycles has a root. */
  lemma RootExists(p: Parents)
    requires p != map[] && Acyclic(p)
    ensures Roots(p) != []
  {
    var id :| id in p;
    var d: nat :| Level(p, id, d);
    var root := RootOf(p, id, d);
  }
}
