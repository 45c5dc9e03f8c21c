/** Exactly when the forest of written fingerprints depends neither on names nor on order. */
module WrittenNames {
  import opened Fingerprint
  import opened ForestRenaming
  import opened ForestSizes
  import opened Grouping
  import opened Ordering
  import opened ParentChains
  import opened RankedRenaming
  import opened RenamingInvariants
  import opened TraceForest

  // ---- One span and its ancestors first ----

  ghost predicate OnPath(p: Parents, x: string, id: string) {
    exists k: nat :: Steps(p, x, id, k)
  }

  ghost function PathRank(p: Parents, x: string): string -> nat {
    id => if OnPath(p, x, id) then 0 else 1
  }

  /** The renaming gives the span and its ancestors smaller IDs than all other spans. */
  ghost predicate Leading(f: string -> string, a: Index, b: Index, x: string) {
    && RenamesIndex(f, a, b) && Follows(f, a.Keys, PathRank(ParentsOf(a), x))
    && HasLevel(ParentsOf(a), x) && "" !in a
  }

  lemma OnePerLevel(p: Parents, x: string, u: string, w: string, e: nat)
    requires HasLevel(p, x) && OnPath(p, x, u) && OnPath(p, x, w) && Level(p, u, e) && Level(p, w, e)
    ensures u == w
  {
    hide Level, Steps;
    var d: nat :| Level(p, x, d);
    var k: nat :| Steps(p, x, u, k);
    var m: nat :| Steps(p, x, w, m);
    StepsLowerLevel(p, x, u, k, d);
    StepsLowerLevel(p, x, w, m, d);
    LevelUnique(p, u, e, d - k);
    LevelUnique(p, w, e, d - m);
    StepsTarget(p, x, u, w, k);
  }

  /** Among siblings the span on the path comes first. */
  lemma FirstSibling(f: string -> string, a: Index, b: Index, x: string, ids: seq<string>, others: seq<string>,
                     u: string, e: nat)
    requires Leading(f, a, b, x) && OnPath(ParentsOf(a), x, u) && u in ids
    requires multiset(others) == multiset(Images(ids, f)) && Ascending(others, Same)
    requires forall id :: id in ids ==> id in a && Level(ParentsOf(a), id, e)
    ensures others != [] && others[0] == f(u)
  {
    hide RenamesIndex, Ascending, Follows, OnPath, Level, HasLevel, ParentsOf;
    SameMembersOfImages(f, ids, others);
    var j :| 0 <= j < |others| && others[j] == f(u);
    assert others[0] in others;
    var w :| w in ids && f(w) == others[0];
    FollowsAt(f, a.Keys, PathRank(ParentsOf(a), x), others, 0, j, w, u);
    OnePerLevel(ParentsOf(a), x, u, w, e);
  }

  lemma LeadingNames(f: string -> string, a: Index, b: Index, x: string)
    requires Leading(f, a, b, x)
    ensures RenamesIndex(f, a, b) && "" !in a
  {
    hide RenamesIndex, Follows, HasLevel;
  }

  lemma LevelOfChildren(p: Parents, id: string) returns (e: nat)
    requires "" !in p && HasLevel(p, id)
    ensures id in p && forall child :: child in ChildIds(p, id) ==> Level(p, child, e)
  {
    var d: nat :| Level(p, id, d);
    LevelInTrace(p, id, d);
    hide Level, ChildIds, HasParent;
    ChildrenLevel(p, id, d);
    e := d + 1;
  }

  lemma EmptyUnknown(a: Index)
    requires "" !in a
    ensures "" !in ParentsOf(a)
    ensures forall id :: id in ParentsOf(a) <==> id in a
  {
  }

  lemma FirstChild(f: string -> string, a: Index, b: Index, x: string, id: string, child: string)
    requires Leading(f, a, b, x) && OnPath(ParentsOf(a), x, child) && HasLevel(ParentsOf(a), id)
    requires child in ChildIds(ParentsOf(a), id)
    ensures var others := ChildIds(ParentsOf(b), f(id));
            others != [] && others[0] == f(child)
  {
    hide RenamesIndex, RenamesParents, Ascending, OnPath, Level, HasLevel, ParentsOf, ChildIds, Leading, HasParent;
    LeadingNames(f, a, b, x);
    EmptyUnknown(a);
    ChildrenIn(a, id);
    var e := LevelOfChildren(ParentsOf(a), id);
    RenamedSpan(f, a, b, id);
    SameChildren(f, ParentsOf(a), ParentsOf(b), id);
    SiblingsAscend(ParentsOf(b), f(id));
    FirstSibling(f, a, b, x, ChildIds(ParentsOf(a), id), ChildIds(ParentsOf(b), f(id)), child, e);
  }

  lemma FirstRoot(f: string -> string, a: Index, b: Index, x: string, root: string)
    requires Leading(f, a, b, x) && OnPath(ParentsOf(a), x, root) && root in Roots(ParentsOf(a))
    ensures var others := Roots(ParentsOf(b));
            others != [] && others[0] == f(root)
  {
    hide RenamesIndex, RenamesParents, Ascending, OnPath, Level, ParentsOf, Roots, Leading, HasParent;
    LeadingNames(f, a, b, x);
    RenamedParents(f, a, b);
    SameRoots(f, ParentsOf(a), ParentsOf(b));
    SiblingsAscend(ParentsOf(b), "");
    RootsAtLevelZero(ParentsOf(a));
    ChildrenIn(a, "");
    FirstSibling(f, a, b, x, Roots(ParentsOf(a)), Roots(ParentsOf(b)), root, 0);
  }

  // ---- Differences rise to the root ----

  /** First siblings of one text with different nodes make the groups differ. */
  lemma GroupsDiffer(b: Index, others: seq<string>, c: Index, further: seq<string>, fuel: nat)
    requires others != [] && further != []
    requires NodeAt(b, others[0], fuel, Written) != NodeAt(c, further[0], fuel, Written)
    requires TextAt(b, fuel)(others[0]) == TextAt(c, fuel)(further[0])
    ensures Gather(NodesAt(b, others, fuel, Written), Written) != Gather(NodesAt(c, further, fuel, Written), Written)
  {
    hide NodeAt, NodesAt, Written, Gather;
    NodesAreImages(b, others, fuel, Written);
    NodesAreImages(c, further, fuel, Written);
    FirstDecides(NodesAt(b, others, fuel, Written), NodesAt(c, further, fuel, Written), Written);
  }

  ghost predicate Differ(b: Index, u: string, c: Index, v: string, fuel: nat) {
    NodeAt(b, u, fuel, Written) != NodeAt(c, v, fuel, Written)
  }

  // Two renamings of one trace, each leading with a span of its own.
  ghost predicate TwoWays(a: Index, f: string -> string, b: Index, x: string, g: string -> string, c: Index,
                          y: string) {
    Leading(f, a, b, x) && Leading(g, a, c, y)
  }

  lemma DifferAbove(a: Index, f: string -> string, b: Index, x: string, g: string -> string, c: Index, y: string,
                    id: string, u: string, v: string, fuel: nat)
    requires TwoWays(a, f, b, x, g, c, y) && HasLevel(ParentsOf(a), id)
    requires u in ChildIds(ParentsOf(a), id) && OnPath(ParentsOf(a), x, u)
    requires v in ChildIds(ParentsOf(a), id) && OnPath(ParentsOf(a), y, v)
    requires Differ(b, f(u), c, g(v), fuel) && TextAt(a, fuel)(u) == TextAt(a, fuel)(v)
    ensures Differ(b, f(id), c, g(id), fuel + 1)
  {
    hide RenamesIndex, OnPath, HasLevel, ParentsOf, ChildIds, TextAt, NodeAt, NodesAt, Gather, Follows, Written;
    FirstChild(f, a, b, x, id, u);
    FirstChild(g, a, c, y, id, v);
    ChildrenIn(a, id);
    SameText(f, a, b, u, fuel);
    SameText(g, a, c, v, fuel);
    GroupsDiffer(b, ChildIds(ParentsOf(b), f(id)), c, ChildIds(ParentsOf(c), g(id)), fuel);
    NodeAtStep(b, f(id), fuel + 1, Written);
    NodeAtStep(c, g(id), fuel + 1, Written);
  }

  lemma PathToParent(p: Parents, x: string, d: string, id: string, k: nat)
    requires "" !in p && x in p && d in p && p[x] == d && Steps(p, d, id, k)
    ensures OnPath(p, x, id)
  {
    assert Steps(p, x, id, k + 1);
  }

  lemma LevelOfTarget(p: Parents, from: string, to: string, k: nat)
    requires Steps(p, from, to, k) && HasLevel(p, from)
    ensures HasLevel(p, to)
  {
    var d: nat :| Level(p, from, d);
    StepsLowerLevel(p, from, to, k, d);
  }

  lemma {:induction false} DifferUp(a: Index, f: string -> string, b: Index, x: string, g: string -> string, c: Index,
                                    y: string,
                                    d: string, id: string, k: nat, fuel: nat)
    requires TwoWays(a, f, b, x, g, c, y) && HasLevel(ParentsOf(a), d)
    requires x in ChildIds(ParentsOf(a), d) && y in ChildIds(ParentsOf(a), d)
    requires Steps(ParentsOf(a), d, id, k) && Differ(b, f(d), c, g(d), fuel)
    ensures Differ(b, f(id), c, g(id), fuel + k)
    decreases k
  {
    hide RenamesIndex, OnPath, HasLevel, ChildIds, TextAt, Differ, Follows, Leading, ParentsOf;
    var p := ParentsOf(a);
    if k == 0 {
      assert id == d;
    } else {
      var child := StepsPeel(p, d, id, k);
      DifferUp(a, f, b, x, g, c, y, d, child, k - 1, fuel);
      LeadingNames(f, a, b, x);
      ParentOnPath(a, x, d, child, k - 1);
      ParentOnPath(a, y, d, child, k - 1);
      LevelOfTarget(p, d, id, k);
      assert child in ChildIds(p, id);
      DifferAbove(a, f, b, x, g, c, y, id, child, child, fuel + (k - 1));
      assert fuel + (k - 1) + 1 == fuel + k;
    }
  }

  lemma ParentOnPath(a: Index, x: string, d: string, id: string, k: nat)
    requires "" !in a && x in ChildIds(ParentsOf(a), d) && Steps(ParentsOf(a), d, id, k)
    ensures OnPath(ParentsOf(a), x, id)
  {
    hide ChildIds, OnPath, ParentsOf;
    var p := ParentsOf(a);
    assert d in p;
    PathToParent(p, x, d, id, k);
  }

  // ---- A lowest collision ----

  /** Two siblings of one text with different nodes, everything below them told apart. */
  ghost predicate Collide(a: Index, ids: seq<string>, x: string, y: string, fuel: nat) {
    && x in ids && y in ids && TextAt(a, fuel)(x) == TextAt(a, fuel)(y)
    && NodeAt(a, x, fuel, Written) != NodeAt(a, y, fuel, Written)
    && Faithful(a, TreeOf(ParentsOf(a), x, fuel), Written) && Faithful(a, TreeOf(ParentsOf(a), y, fuel), Written)
  }

  lemma CollidingSiblings(a: Index, ids: seq<string>, fuel: nat) returns (x: string, y: string)
    requires !Separates(Written, NodesAt(a, ids, fuel, Written))
    requires forall id :: id in ids ==> Faithful(a, TreeOf(ParentsOf(a), id, fuel), Written)
    ensures Collide(a, ids, x, y, fuel)
  {
    hide Written, NodeAt, NodesAt, Faithful, TreeOf;
    var nodes := NodesAt(a, ids, fuel, Written);
    NodesAreImages(a, ids, fuel, Written);
    var m, n :| m in nodes && n in nodes && Written(m) == Written(n) && m != n;
    var i :| 0 <= i < |nodes| && nodes[i] == m;
    var j :| 0 <= j < |nodes| && nodes[j] == n;
    x, y := ids[i], ids[j];
  }

  lemma FaithfulAbove(a: Index, id: string, fuel: nat)
    requires fuel > 0
    requires var ids := ChildIds(ParentsOf(a), id);
             && Separates(Written, NodesAt(a, ids, fuel - 1, Written))
             && forall child :: child in ids ==> Faithful(a, TreeOf(ParentsOf(a), child, fuel - 1), Written)
    ensures Faithful(a, TreeOf(ParentsOf(a), id, fuel), Written)
  {
    hide Written, Separates, ChildIds, GroupedAll;
    var ids := ChildIds(ParentsOf(a), id);
    var t := TreeOf(ParentsOf(a), id, fuel);
    assert t.children == TreesOf(ParentsOf(a), ids, fuel - 1);
    forall i | 0 <= i < |t.children|
      ensures Faithful(a, t.children[i], Written)
    {
      assert ids[i] in ids;
    }
  }

  lemma LeafFaithful(a: Index, id: string)
    ensures Faithful(a, TreeOf(ParentsOf(a), id, 0), Written)
  {
  }

  lemma {:induction false} FindCollision(a: Index, id: string, fuel: nat)
    returns (d: string, k: nat, rest: nat, x: string, y: string)
    requires "" !in a && id in a && !Faithful(a, TreeOf(ParentsOf(a), id, fuel), Written)
    ensures Steps(ParentsOf(a), d, id, k) && rest + 1 + k == fuel
    ensures Collide(a, ChildIds(ParentsOf(a), d), x, y, rest)
    decreases fuel
  {
    hide Written, ChildIds, Faithful, TreeOf, Collide, Steps, ParentsOf, HasParent;
    if fuel == 0 {
      LeafFaithful(a, id);
    } else {
      var found, child := UnfaithfulChild(a, id, fuel - 1);
      if found {
        d, k, rest, x, y := FindCollision(a, child, fuel - 1);
        ChildHasParent(a, child, id);
        ExtendToParent(ParentsOf(a), d, child, id, k);
        k := k + 1;
      } else {
        d, k, rest := id, 0, fuel - 1;
        x, y := LowestCollision(a, id, fuel);
        StepsToItself(ParentsOf(a), id);
      }
    }
  }

  lemma UnfaithfulChild(a: Index, id: string, fuel: nat) returns (found: bool, child: string)
    ensures found ==> child in a && child in ChildIds(ParentsOf(a), id) &&
                      !Faithful(a, TreeOf(ParentsOf(a), child, fuel), Written)
    ensures !found ==> forall c :: c in ChildIds(ParentsOf(a), id) ==>
            Faithful(a, TreeOf(ParentsOf(a), c, fuel), Written)
  {
    hide Written, ChildIds, Faithful, TreeOf, ParentsOf;
    ChildrenIn(a, id);
    child := "";
    found := exists c :: c in ChildIds(ParentsOf(a), id) && !Faithful(a, TreeOf(ParentsOf(a), c, fuel), Written);
    if found {
      child :| child in ChildIds(ParentsOf(a), id) && !Faithful(a, TreeOf(ParentsOf(a), child, fuel), Written);
    }
  }

  lemma LowestCollision(a: Index, id: string, fuel: nat) returns (x: string, y: string)
    requires fuel > 0 && !Faithful(a, TreeOf(ParentsOf(a), id, fuel), Written)
    requires forall c :: c in ChildIds(ParentsOf(a), id) ==> Faithful(a, TreeOf(ParentsOf(a), c, fuel - 1), Written)
    ensures Collide(a, ChildIds(ParentsOf(a), id), x, y, fuel - 1)
  {
    hide Written, NodesAt, Separates, ChildIds, Faithful, TreeOf, Collide, ParentsOf;
    if Separates(Written, NodesAt(a, ChildIds(ParentsOf(a), id), fuel - 1, Written)) {
      FaithfulAbove(a, id, fuel);
    }
    x, y := CollidingSiblings(a, ChildIds(ParentsOf(a), id), fuel - 1);
  }

  lemma ChildHasParent(a: Index, child: string, id: string)
    requires "" !in a && id in a && child in ChildIds(ParentsOf(a), id)
    ensures HasParent(ParentsOf(a), child) && ParentsOf(a)[child] == id
  {
  }

  lemma CollidersDiffer(a: Index, f: string -> string, b: Index, g: string -> string, c: Index, ids: seq<string>,
                        x: string, y: string, fuel: nat)
    requires RenamesIndex(f, a, b) && RenamesIndex(g, a, c) && Collide(a, ids, x, y, fuel) && x in a && y in a
    ensures Differ(b, f(x), c, g(y), fuel)
  {
    hide RenamesIndex, Written, NodeAt, Faithful, TreeOf, TextAt, ParentsOf;
    SameNode(f, a, b, x, fuel, Written);
    SameNode(g, a, c, y, fuel, Written);
  }

  // ---- One trace ----

  /** The two renamings give the trace different groups under one text. */
  ghost predicate TracesDiffer(b: Index, c: Index) {
    TraceOf(b, Written) != TraceOf(c, Written)
  }

  lemma RootsDiffer(a: Index, f: string -> string, b: Index, x: string, g: string -> string, c: Index, y: string,
                    u: string, v: string)
    requires TwoWays(a, f, b, x, g, c, y) && u in Roots(ParentsOf(a)) && v in Roots(ParentsOf(a))
    requires OnPath(ParentsOf(a), x, u) && OnPath(ParentsOf(a), y, v)
    requires Differ(b, f(u), c, g(v), MAX_TRACE_DEPTH) && TextAt(a, MAX_TRACE_DEPTH)(u) == TextAt(a, MAX_TRACE_DEPTH)(v)
    ensures TracesDiffer(b, c)
  {
    hide RenamesIndex, OnPath, HasLevel, ParentsOf, Roots, TextAt, NodeAt, NodesAt, Gather, Leading, Written, TraceOf,
         ParentMissing;
    LeadingNames(f, a, b, x);
    LeadingNames(g, a, c, y);
    FirstRoot(f, a, b, x, u);
    FirstRoot(g, a, c, y, v);
    ChildrenIn(a, "");
    SameText(f, a, b, u, MAX_TRACE_DEPTH);
    SameText(g, a, c, v, MAX_TRACE_DEPTH);
    GroupsDiffer(b, Roots(ParentsOf(b)), c, Roots(ParentsOf(c)), MAX_TRACE_DEPTH);
    TraceIs(b, Written);
    TraceIs(c, Written);
  }

  /** Leading once with the one and once with the other of these spans changes the trace. */
  ghost predicate Decides(a: Index, x: string, y: string) {
    && x in a && y in a
    && forall f, b, g, c :: TwoWays(a, f, b, x, g, c, y) ==> TracesDiffer(b, c)
  }

  lemma RootCollisionDiffers(a: Index, f: string -> string, b: Index, x: string, g: string -> string, c: Index,
                             y: string)
    requires Collide(a, Roots(ParentsOf(a)), x, y, MAX_TRACE_DEPTH) && TwoWays(a, f, b, x, g, c, y) && x in a && y in a
    ensures TracesDiffer(b, c)
  {
    hide OnPath, ParentsOf, Roots, Collide, TracesDiffer, Differ, TwoWays, TextAt;
    CollidersIn(a, Roots(ParentsOf(a)), x, y, MAX_TRACE_DEPTH);
    OnOwnPath(a, x);
    OnOwnPath(a, y);
    TwoWaysRename(a, f, b, x, g, c, y);
    CollidersDiffer(a, f, b, g, c, Roots(ParentsOf(a)), x, y, MAX_TRACE_DEPTH);
    RootsDiffer(a, f, b, x, g, c, y, x, y);
  }

  lemma RootCollisionDecides(a: Index, x: string, y: string)
    requires Collide(a, Roots(ParentsOf(a)), x, y, MAX_TRACE_DEPTH)
    ensures Decides(a, x, y)
  {
    hide ParentsOf, Roots, Collide, TracesDiffer, TwoWays, HasParent, TextAt, RenamesIndex;
    CollidersIn(a, Roots(ParentsOf(a)), x, y, MAX_TRACE_DEPTH);
    ChildrenIn(a, "");
    forall f, b, g, c | TwoWays(a, f, b, x, g, c, y)
      ensures TracesDiffer(b, c)
    {
      RootCollisionDiffers(a, f, b, x, g, c, y);
    }
  }

  lemma TwoWaysRename(a: Index, f: string -> string, b: Index, x: string, g: string -> string, c: Index, y: string)
    requires TwoWays(a, f, b, x, g, c, y)
    ensures RenamesIndex(f, a, b) && RenamesIndex(g, a, c) && "" !in a
  {
    hide RenamesIndex, Follows, HasLevel;
  }

  lemma OnOwnPath(a: Index, x: string)
    requires x in a
    ensures OnPath(ParentsOf(a), x, x)
  {
    StepsToItself(ParentsOf(a), x);
  }

  lemma CollidersIn(a: Index, ids: seq<string>, x: string, y: string, fuel: nat)
    requires Collide(a, ids, x, y, fuel)
    ensures x in ids && y in ids && TextAt(a, fuel)(x) == TextAt(a, fuel)(y)
  {
    hide TextAt, NodeAt, Faithful, TreeOf, ParentsOf, Written;
  }

  lemma ParentsDiffer(a: Index, f: string -> string, b: Index, x: string, g: string -> string, c: Index, y: string,
                      d: string, rest: nat)
    requires Collide(a, ChildIds(ParentsOf(a), d), x, y, rest) && HasLevel(ParentsOf(a), d)
    requires TwoWays(a, f, b, x, g, c, y)
    ensures x in ChildIds(ParentsOf(a), d) && y in ChildIds(ParentsOf(a), d)
    ensures Differ(b, f(d), c, g(d), rest + 1)
  {
    hide OnPath, ParentsOf, ChildIds, Collide, Differ, TwoWays, HasLevel, TextAt, RenamesIndex, HasParent;
    CollidersIn(a, ChildIds(ParentsOf(a), d), x, y, rest);
    ChildrenIn(a, d);
    TwoWaysRename(a, f, b, x, g, c, y);
    OnOwnPath(a, x);
    OnOwnPath(a, y);
    CollidersDiffer(a, f, b, g, c, ChildIds(ParentsOf(a), d), x, y, rest);
    DifferAbove(a, f, b, x, g, c, y, d, x, y, rest);
  }

  lemma LowCollisionDiffers(a: Index, f: string -> string, b: Index, x: string, g: string -> string, c: Index,
                            y: string,
                            root: string, d: string, k: nat, rest: nat)
    requires root in Roots(ParentsOf(a)) && Steps(ParentsOf(a), d, root, k) && rest + 1 + k == MAX_TRACE_DEPTH
    requires Collide(a, ChildIds(ParentsOf(a), d), x, y, rest) && HasLevel(ParentsOf(a), d)
    requires TwoWays(a, f, b, x, g, c, y)
    ensures TracesDiffer(b, c)
  {
    hide OnPath, ParentsOf, Roots, ChildIds, Collide, TracesDiffer, Differ, TwoWays, HasLevel, Steps, RenamesIndex,
         HasParent, TextAt;
    TwoWaysRename(a, f, b, x, g, c, y);
    ParentsDiffer(a, f, b, x, g, c, y, d, rest);
    DifferUp(a, f, b, x, g, c, y, d, root, k, rest + 1);
    ParentOnPath(a, x, d, root, k);
    ParentOnPath(a, y, d, root, k);
    RootsDiffer(a, f, b, x, g, c, y, root, root);
  }

  lemma LowCollisionDecides(a: Index, root: string, d: string, k: nat, rest: nat, x: string, y: string)
    requires root in Roots(ParentsOf(a)) && Steps(ParentsOf(a), d, root, k) && rest + 1 + k == MAX_TRACE_DEPTH
    requires Collide(a, ChildIds(ParentsOf(a), d), x, y, rest) && Acyclic(ParentsOf(a)) && "" !in a
    ensures Decides(a, x, y)
  {
    hide ParentsOf, Roots, ChildIds, Collide, TracesDiffer, TwoWays, Steps, HasLevel, RenamesIndex, HasParent, TextAt;
    CollidersIn(a, ChildIds(ParentsOf(a), d), x, y, rest);
    ChildrenIn(a, d);
    StepsStart(ParentsOf(a), d, root, k);
    assert HasLevel(ParentsOf(a), d);
    forall f, b, g, c | TwoWays(a, f, b, x, g, c, y)
      ensures TracesDiffer(b, c)
    {
      LowCollisionDiffers(a, f, b, x, g, c, y, root, d, k, rest);
    }
  }

  lemma StepsStart(p: Parents, from: string, to: string, k: nat)
    requires Steps(p, from, to, k)
    ensures from in p
  {
  }

  lemma FaithfulRootsAt(a: Index)
    requires Separates(Written, NodesAt(a, Roots(ParentsOf(a)), MAX_TRACE_DEPTH, Written))
    requires forall root :: root in Roots(ParentsOf(a)) ==>
             Faithful(a, TreeOf(ParentsOf(a), root, MAX_TRACE_DEPTH), Written)
    ensures FaithfulTrace(a, Written)
  {
    hide Separates, GroupedAll, Faithful, TreeOf, Roots, Written;
    var ids := Roots(ParentsOf(a));
    forall i | 0 <= i < |ids|
      ensures Faithful(a, TreesOf(ParentsOf(a), ids, MAX_TRACE_DEPTH)[i], Written)
    {
      assert ids[i] in ids;
    }
  }

  /** A trace whose siblings are not all told apart has two spans that decide its form. */
  lemma UnfaithfulTraceDecides(a: Index) returns (x: string, y: string)
    requires !FaithfulTrace(a, Written) && Acyclic(ParentsOf(a)) && "" !in a
    ensures Decides(a, x, y)
  {
    hide Separates, NodesAt, Faithful, TreeOf, Roots, Written, ParentsOf, FaithfulTrace, Collide, Steps, ChildIds,
         Decides, HasLevel;
    var p := ParentsOf(a);
    ChildrenIn(a, "");
    if forall root :: root in Roots(p) ==> Faithful(a, TreeOf(p, root, MAX_TRACE_DEPTH), Written) {
      if Separates(Written, NodesAt(a, Roots(p), MAX_TRACE_DEPTH, Written)) {
        FaithfulRootsAt(a);
      }
      x, y := CollidingSiblings(a, Roots(p), MAX_TRACE_DEPTH);
      RootCollisionDecides(a, x, y);
    } else {
      var root :| root in Roots(p) && !Faithful(a, TreeOf(p, root, MAX_TRACE_DEPTH), Written);
      var d, k, rest;
      d, k, rest, x, y := FindCollision(a, root, MAX_TRACE_DEPTH);
      LowCollisionDecides(a, root, d, k, rest, x, y);
    }
  }

  // ---- The forest ----

  function FirstRank(t: string): string -> nat {
    id => if id == t then 0 else 1
  }

  /** The renaming puts the given trace first. */
  lemma FirstTrace(r: Renaming, a: seq<RawSpan>, b: seq<RawSpan>, t: string)
    requires Proper(r) && IsRenaming(r, a, b) && t in TraceIds(a) && Follows(r.trace, TraceIds(a), FirstRank(t))
    ensures var ids := SortedKeys(TraceIds(b));
            ids != [] && ids[0] == r.trace(t)
  {
    hide Proper, IsRenaming, TraceIds, SortedKeys, Follows, Ascending;
    var ids := SortedKeys(TraceIds(b));
    SameTraceIds(r, a, b);
    SortedKeysAscend(TraceIds(b));
    var j :| 0 <= j < |ids| && ids[j] == r.trace(t);
    assert ids[0] in ids;
    var w :| w in TraceIds(a) && r.trace(w) == ids[0];
    FollowsAt(r.trace, TraceIds(a), FirstRank(t), ids, 0, j, w, t);
  }

  /** First traces of one text that differ make the forests differ. */
  lemma ForestsDiffer(b: seq<RawSpan>, t: string, c: seq<RawSpan>, u: string)
    requires var ids := SortedKeys(TraceIds(b)); ids != [] && ids[0] == t
    requires var ids := SortedKeys(TraceIds(c)); ids != [] && ids[0] == u
    requires TracesDiffer(IndexIn(b, t), IndexIn(c, u))
    requires WrittenTrace(TraceOf(IndexIn(b, t), Written)) == WrittenTrace(TraceOf(IndexIn(c, u), Written))
    ensures ForestOf(b, WRITTEN) != ForestOf(c, WRITTEN)
  {
    hide TraceIds, SortedKeys, TraceOf, IndexIn, Written, WrittenTrace, Gather, TracesOf;
    var xs, ys := TracesOf(b, SortedKeys(TraceIds(b)), Written), TracesOf(c, SortedKeys(TraceIds(c)), Written);
    TracesAreImages(b, SortedKeys(TraceIds(b)), Written);
    TracesAreImages(c, SortedKeys(TraceIds(c)), Written);
    FirstDecides(xs, ys, WrittenTrace);
  }

  ghost function LeadRanks(a: seq<RawSpan>, t: string, x: string): Ranks {
    Ranks(FirstRank(t), (traceId: string, id: string) => PathRank(ParentsOf(IndexIn(a, traceId)), x)(id))
  }

  ghost predicate Distinguish(a: seq<RawSpan>, ranks: Ranks, others: Ranks) {
    ForestOf(Ranked(a, ranks), WRITTEN) != ForestOf(Ranked(a, others), WRITTEN)
  }

  lemma RankedLeads(a: seq<RawSpan>, t: string, x: string)
    requires Acceptable(a) && t in TraceIds(a) && x in IndexIn(a, t)
    ensures var r, b := ByRanks(a, LeadRanks(a, t, x)), Ranked(a, LeadRanks(a, t, x));
            && Acceptable(b) && SortedKeys(TraceIds(b)) != [] && SortedKeys(TraceIds(b))[0] == r.trace(t)
            && Leading(SpanIn(r, t), IndexIn(a, t), IndexIn(b, r.trace(t)), x)
  {
    hide Proper, IsRenaming, Identified, TraceIds, IndexIn, SortedKeys, RenamesIndex, Follows, TraceAcceptable, ByRanks,
         Ranked, SpanIn,
         HasLevel;
    var ranks := LeadRanks(a, t, x);
    var r, b := ByRanks(a, ranks), Ranked(a, ranks);
    RankedProper(a, ranks);
    AcceptanceForgetsNames(r, a, b);
    RankedFollows(a, ranks, t);
    FirstTrace(r, a, b, t);
    SameIndex(r, a, b, t);
    SpansInTrace(a, t);
    LevelInAcceptable(a, t, x);
    FollowsPath(a, t, x);
  }

  lemma LevelInAcceptable(a: seq<RawSpan>, t: string, x: string)
    requires Acceptable(a) && t in TraceIds(a) && x in IndexIn(a, t)
    ensures Acyclic(ParentsOf(IndexIn(a, t))) && HasLevel(ParentsOf(IndexIn(a, t)), x)
  {
    hide Identified, TraceIds, IndexIn, HasLevel, Shallow, OneExplicitRoot;
  }

  lemma FollowsPath(a: seq<RawSpan>, t: string, x: string)
    ensures Follows(SpanIn(ByRanks(a, LeadRanks(a, t, x)), t), IndexIn(a, t).Keys,
            PathRank(ParentsOf(IndexIn(a, t)), x))
  {
    hide IndexIn, OnPath, SpanIn, ByRanks, AtMost;
    RankedFollows(a, LeadRanks(a, t, x), t);
    assert forall id :: RankIn(LeadRanks(a, t, x), t)(id) == PathRank(ParentsOf(IndexIn(a, t)), x)(id);
  }

  lemma UnfaithfulTraceDistinguishes(a: seq<RawSpan>, t: string, x: string, y: string)
    requires Acceptable(a) && t in TraceIds(a) && Decides(IndexIn(a, t), x, y)
    ensures Distinguish(a, LeadRanks(a, t, x), LeadRanks(a, t, y))
  {
    hide Acceptable, TraceIds, IndexIn, SortedKeys, Leading, ByRanks, Ranked, SpanIn, LeadRanks, TracesDiffer, TraceOf,
         Written, WrittenTrace,
         ForestOf;
    var index := IndexIn(a, t);
    var r, b := ByRanks(a, LeadRanks(a, t, x)), Ranked(a, LeadRanks(a, t, x));
    var s, c := ByRanks(a, LeadRanks(a, t, y)), Ranked(a, LeadRanks(a, t, y));
    RankedLeads(a, t, x);
    RankedLeads(a, t, y);
    var f, g := SpanIn(r, t), SpanIn(s, t);
    assert TwoWays(index, f, IndexIn(b, r.trace(t)), x, g, IndexIn(c, s.trace(t)), y);
    TwoWaysRename(index, f, IndexIn(b, r.trace(t)), x, g, IndexIn(c, s.trace(t)), y);
    SameTraceText(f, index, IndexIn(b, r.trace(t)));
    SameTraceText(g, index, IndexIn(c, s.trace(t)));
    ForestsDiffer(b, r.trace(t), c, s.trace(t));
  }

  lemma CollidingTracesDistinguish(a: seq<RawSpan>, t: string, u: string)
    requires Acceptable(a) && t in TraceIds(a) && u in TraceIds(a)
    requires FaithfulTrace(IndexIn(a, t), Written) && FaithfulTrace(IndexIn(a, u), Written)
    requires TracesDiffer(IndexIn(a, t), IndexIn(a, u))
    requires WrittenTrace(TraceOf(IndexIn(a, t), Written)) == WrittenTrace(TraceOf(IndexIn(a, u), Written))
    ensures Distinguish(a, LeadRanks(a, t, ""), LeadRanks(a, u, ""))
  {
    hide Acceptable, TraceIds, IndexIn, SortedKeys, ByRanks, Ranked, LeadRanks, TraceOf, Written, WrittenTrace,
         ForestOf, FaithfulTrace;
    TraceAtFront(a, t);
    TraceAtFront(a, u);
    ForestsDiffer(Ranked(a, LeadRanks(a, t, "")), ByRanks(a, LeadRanks(a, t, "")).trace(t),
                  Ranked(a, LeadRanks(a, u, "")), ByRanks(a, LeadRanks(a, u, "")).trace(u));
  }

  lemma TraceAtFront(a: seq<RawSpan>, t: string)
    requires Acceptable(a) && t in TraceIds(a) && FaithfulTrace(IndexIn(a, t), Written)
    ensures var r, b := ByRanks(a, LeadRanks(a, t, "")), Ranked(a, LeadRanks(a, t, ""));
            && SortedKeys(TraceIds(b)) != [] && SortedKeys(TraceIds(b))[0] == r.trace(t)
            && TraceOf(IndexIn(b, r.trace(t)), Written) == TraceOf(IndexIn(a, t), Written)
  {
    hide Proper, IsRenaming, Identified, TraceIds, IndexIn, SortedKeys, RenamesIndex, Follows, TraceAcceptable, ByRanks,
         Ranked, SpanIn,
         FaithfulTrace, TraceOf, Written, PathRank;
    var ranks := LeadRanks(a, t, "");
    var r, b := ByRanks(a, ranks), Ranked(a, ranks);
    RankedProper(a, ranks);
    AcceptanceForgetsNames(r, a, b);
    RankedFollows(a, ranks, t);
    FirstTrace(r, a, b, t);
    SameIndex(r, a, b, t);
    SameTrace(SpanIn(r, t), IndexIn(a, t), IndexIn(b, r.trace(t)), Written);
  }

  lemma CollidingTraces(a: seq<RawSpan>) returns (t: string, u: string)
    requires !Separates(WrittenTrace, TracesOf(a, SortedKeys(TraceIds(a)), Written))
    ensures t in TraceIds(a) && u in TraceIds(a) && TracesDiffer(IndexIn(a, t), IndexIn(a, u))
    ensures WrittenTrace(TraceOf(IndexIn(a, t), Written)) == WrittenTrace(TraceOf(IndexIn(a, u), Written))
  {
    hide TraceIds, IndexIn, SortedKeys, TraceOf, Written, WrittenTrace, TracesOf;
    var ids := SortedKeys(TraceIds(a));
    var traces := TracesOf(a, ids, Written);
    TracesAreImages(a, ids, Written);
    var x, y :| x in traces && y in traces && WrittenTrace(x) == WrittenTrace(y) && x != y;
    var i :| 0 <= i < |traces| && traces[i] == x;
    var j :| 0 <= j < |traces| && traces[j] == y;
    t, u := ids[i], ids[j];
    assert t in ids && u in ids;
  }

  /** Where texts do not tell everything apart, two namings give two forests. */
  lemma UnfaithfulForestDistinguishes(a: seq<RawSpan>) returns (ranks: Ranks, others: Ranks)
    requires Acceptable(a) && !FaithfulForest(a, WRITTEN)
    ensures Distinguish(a, ranks, others)
  {
    hide Identified, TraceAcceptable, TraceIds, IndexIn, SortedKeys, TraceOf, TracesOf, Written, WrittenTrace,
         LeadRanks, Distinguish,
         FaithfulTrace, Separates, Decides, TracesDiffer;
    if t :| t in TraceIds(a) && !FaithfulTrace(IndexIn(a, t), Written) {
      SpansInTrace(a, t);
      AcyclicTrace(a, t);
      var x, y := UnfaithfulTraceDecides(IndexIn(a, t));
      UnfaithfulTraceDistinguishes(a, t, x, y);
      ranks, others := LeadRanks(a, t, x), LeadRanks(a, t, y);
    } else {
      var t, u := CollidingTraces(a);
      CollidingTracesDistinguish(a, t, u);
      ranks, others := LeadRanks(a, t, ""), LeadRanks(a, u, "");
    }
  }

  lemma AcyclicTrace(a: seq<RawSpan>, t: string)
    requires Acceptable(a) && t in TraceIds(a)
    ensures Acyclic(ParentsOf(IndexIn(a, t)))
  {
    hide Identified, TraceIds, IndexIn, Acyclic, Shallow, OneExplicitRoot;
  }

  /** Renaming and reordering never change the forest of written fingerprints: exactly when
      texts tell apart all siblings and all traces that differ. Renamings that use no new
      IDs are enough to tell. */
  lemma WrittenForestIsCanonicalIff(a: seq<RawSpan>)
    requires Acceptable(a)
    ensures (forall r, b :: Proper(r) && IsRenaming(r, a, b) ==> ForestOf(b, WRITTEN) == ForestOf(a, WRITTEN)) <==>
            FaithfulForest(a, WRITTEN)
    ensures (forall r, b :: Proper(r) && IsRenaming(r, a, b) && NoNewIds(a, b) ==>
            ForestOf(b, WRITTEN) == ForestOf(a, WRITTEN)) <==>
            FaithfulForest(a, WRITTEN)
  {
    hide Proper, IsRenaming, ForestOf, FaithfulForest, NoNewIds, ByRanks, Ranked, Identified, TraceAcceptable, TraceIds,
         IndexIn;
    if FaithfulForest(a, WRITTEN) {
      forall r, b | Proper(r) && IsRenaming(r, a, b)
        ensures ForestOf(b, WRITTEN) == ForestOf(a, WRITTEN)
      {
        ForestForgetsNames(r, a, b, WRITTEN);
      }
    } else {
      var ranks, others := UnfaithfulForestDistinguishes(a);
      RankedProper(a, ranks);
      RankedProper(a, others);
      RankedUsesIds(a, ranks);
      RankedUsesIds(a, others);
    }
  }
}
