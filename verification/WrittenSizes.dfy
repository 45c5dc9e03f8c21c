/** Exactly when the forest of written fingerprints stands for as many spans as went in. */
module WrittenSizes {
  import opened Fingerprint
  import opened ForestRenaming
  import opened ForestSizes
  import opened Grouping
  import opened Ordering
  import opened ParentChains
  import opened RankedRenaming
  import opened RenamingInvariants
  import opened TraceForest

  // ---- The lightest siblings first ----

  ghost function ToldAt(index: Index, fuel: nat): string -> bool {
    id => ToldBelow(index, id, fuel)
  }

  /** Of two siblings, the first is the smaller, or of the same size and no better told. */
  ghost predicate LightFirst(index: Index, ids: seq<string>, fuel: nat) {
    forall i, j :: 0 <= i < j < |ids| ==> NoHeavier(ids[i], ids[j], SizeAt(index, fuel), ToldAt(index, fuel))
  }

  ghost predicate LightBelow(index: Index, id: string, fuel: nat)
    decreases fuel
  {
    fuel > 0 ==>
      var ids := ChildIds(ParentsOf(index), id);
      LightFirst(index, ids, fuel - 1) && forall child :: child in ids ==> LightBelow(index, child, fuel - 1)
  }

  /** The grouped node counts no more spans than there are. */
  ghost predicate Bounded(index: Index, id: string, fuel: nat) {
    && NodeSize(NodeAt(index, id, fuel, Written)) <= SizeAt(index, fuel)(id)
    && (NodeSize(NodeAt(index, id, fuel, Written)) == SizeAt(index, fuel)(id) <==> ToldBelow(index, id, fuel))
  }

  lemma BoundedAmong(index: Index, ids: seq<string>, fuel: nat)
    requires LightFirst(index, ids, fuel) && forall id :: id in ids ==> Bounded(index, id, fuel)
    ensures GroupsSize(Gather(NodesAt(index, ids, fuel, Written), Written)) <= Sum(ids, SizeAt(index, fuel))
    ensures GroupsSize(Gather(NodesAt(index, ids, fuel, Written), Written)) == Sum(ids, SizeAt(index, fuel)) <==>
            SizeFaithfulRoots(index, TreesOf(ParentsOf(index), ids, fuel), Written)
  {
    hide Written, NodeAt, NodesAt, NodeSize, GroupsSize, Gather, SizeAt, ToldBelow, Sum, SizeFaithfulRoots, TreesOf,
         ParentsOf;
    var nodes := NodesAt(index, ids, fuel, Written);
    NodesAreImages(index, ids, fuel, Written);
    forall i | 0 <= i < |ids|
      ensures NodeSize(nodes[i]) <= SizeAt(index, fuel)(ids[i])
      ensures NodeSize(nodes[i]) == SizeAt(index, fuel)(ids[i]) <==> ToldAt(index, fuel)(ids[i])
    {
      assert ids[i] in ids;
    }
    LightestFirst(nodes, Written, NodeSize, ids, SizeAt(index, fuel), ToldAt(index, fuel));
    GroupsSizeIsWeight(Gather(nodes, Written));
    ToldAmong(index, ids, fuel);
    AlikeById(index, ids, fuel);
  }

  lemma AlikeById(index: Index, ids: seq<string>, fuel: nat)
    ensures WeighAlike(NodesAt(index, ids, fuel, Written), Written, ids, SizeAt(index, fuel)) <==>
            Tells(ids, TextAt(index, fuel), SizeAt(index, fuel))
  {
    hide Written, NodeAt, NodesAt, SizeAt;
    var nodes := NodesAt(index, ids, fuel, Written);
    NodesAreImages(index, ids, fuel, Written);
    AlikeIsTells(nodes, Written, ids, SizeAt(index, fuel), ids, TextAt(index, fuel), SizeAt(index, fuel));
  }

  lemma {:induction false} BoundedBelow(index: Index, id: string, fuel: nat)
    requires LightBelow(index, id, fuel)
    ensures Bounded(index, id, fuel)
    decreases fuel
  {
    hide Written, NodeAt, NodesAt, GroupsSize, Gather, SizeAt, ToldBelow, Sum, SizeFaithfulRoots, TreesOf, ParentsOf,
         ChildIds,
         Bounded, LightFirst;
    SizeStep(index, id, fuel);
    ToldStep(index, id, fuel);
    if fuel == 0 {
      NoChildren(index, id, Written);
      NothingGathered();
    } else {
      var ids := ChildIds(ParentsOf(index), id);
      forall child | child in ids
        ensures Bounded(index, child, fuel - 1)
      {
        BoundedBelow(index, child, fuel - 1);
      }
      BoundedAmong(index, ids, fuel - 1);
      NodeAtStep(index, id, fuel, Written);
    }
    BoundedIs(index, id, fuel);
  }

  lemma NothingGathered()
    ensures GroupsSize(Gather([], Written)) == 0
  {
  }

  lemma BoundedIs(index: Index, id: string, fuel: nat)
    ensures Bounded(index, id, fuel) <==>
            && NodeSize(NodeAt(index, id, fuel, Written)) <= SizeAt(index, fuel)(id)
            && (NodeSize(NodeAt(index, id, fuel, Written)) == SizeAt(index, fuel)(id) <==> ToldBelow(index, id, fuel))
  {
    hide Written, NodeAt, NodeSize, SizeAt, ToldBelow;
  }

  // ---- Ranks ----

  ghost function LevelIn(p: Parents, id: string): nat {
    if HasLevel(p, id) then var d: nat :| Level(p, id, d); d else 0
  }

  lemma LevelIs(p: Parents, id: string, d: nat)
    requires Level(p, id, d)
    ensures LevelIn(p, id) == d
  {
    hide Level;
    assert HasLevel(p, id);
    LevelUnique(p, id, d, LevelIn(p, id));
  }

  // How many levels may lie at and below the span.
  ghost function FuelOf(index: Index, id: string): nat {
    var d := LevelIn(ParentsOf(index), id);
    if d <= MAX_TRACE_DEPTH then MAX_TRACE_DEPTH - d else 0
  }

  function Graded(size: nat, told: bool): nat {
    2 * size + if told then 1 else 0
  }

  ghost function SizeRank(index: Index, id: string): nat {
    Graded(SizeAt(index, FuelOf(index, id))(id), ToldBelow(index, id, FuelOf(index, id)))
  }

  ghost function SizeRanks(a: seq<RawSpan>): Ranks {
    Ranks(t => Graded(CountIn(a)(t), SizeFaithfulTrace(IndexIn(a, t), Written)),
          (t: string, id: string) => SizeRank(IndexIn(a, t), id))
  }

  ghost predicate BySize(f: string -> string, a: Index) {
    Follows(f, a.Keys, id => SizeRank(a, id))
  }

  lemma LightSiblings(f: string -> string, a: Index, b: Index, ids: seq<string>, others: seq<string>, fuel: nat)
    requires RenamesIndex(f, a, b) && BySize(f, a) && Ascending(others, Same)
    requires multiset(others) == multiset(Images(ids, f))
    requires forall id :: id in ids ==> id in a && FuelOf(a, id) == fuel
    ensures LightFirst(b, others, fuel)
  {
    hide RenamesIndex, Ascending, Follows, SizeAt, ToldBelow, FuelOf;
    SameMembersOfImages(f, ids, others);
    forall i, j | 0 <= i < j < |others|
      ensures NoHeavier(others[i], others[j], SizeAt(b, fuel), ToldAt(b, fuel))
    {
      assert others[i] in others && others[j] in others;
      var x :| x in ids && f(x) == others[i];
      var y :| y in ids && f(y) == others[j];
      FollowsAt(f, a.Keys, id => SizeRank(a, id), others, i, j, x, y);
      SameSizeBelow(f, a, b, x, fuel);
      SameSizeBelow(f, a, b, y, fuel);
      SameToldBelow(f, a, b, x, fuel);
      SameToldBelow(f, a, b, y, fuel);
    }
  }

  lemma ChildLevels(index: Index, id: string, d: nat)
    requires "" !in index && Level(ParentsOf(index), id, d) && d < MAX_TRACE_DEPTH
    ensures forall child :: child in ChildIds(ParentsOf(index), id) ==>
              child in index && Level(ParentsOf(index), child, d + 1) &&
                FuelOf(index, child) == MAX_TRACE_DEPTH - (d + 1)
  {
    hide Level, ChildIds, LevelIn;
    var p := ParentsOf(index);
    ChildrenLevel(p, id, d);
    ChildrenIn(index, id);
    forall child | child in ChildIds(p, id)
      ensures LevelIn(p, child) == d + 1
    {
      LevelIs(p, child, d + 1);
    }
  }

  lemma LightStep(index: Index, id: string, fuel: nat)
    requires fuel > 0 ==>
               var ids := ChildIds(ParentsOf(index), id);
               LightFirst(index, ids, fuel - 1) && forall child :: child in ids ==> LightBelow(index, child, fuel - 1)
    ensures LightBelow(index, id, fuel)
  {
    hide LightFirst, ChildIds, ParentsOf;
  }

  /** Naming the spans by size puts the lightest siblings first everywhere. */
  lemma {:induction false} LightByName(f: string -> string, a: Index, b: Index, id: string, d: nat, fuel: nat)
    requires RenamesIndex(f, a, b) && BySize(f, a) && "" !in a
    requires Level(ParentsOf(a), id, d) && d + fuel == MAX_TRACE_DEPTH
    ensures LightBelow(b, f(id), fuel)
    decreases fuel
  {
    hide RenamesIndex, RenamesParents, BySize, Level, LightFirst, LightBelow, ParentsOf, ChildIds, FuelOf, Ascending,
         HasParent;
    LevelInTrace(ParentsOf(a), id, d);
    if fuel > 0 {
      LightChildren(f, a, b, id, d, fuel - 1);
      var ids, others := ChildIds(ParentsOf(a), id), ChildIds(ParentsOf(b), f(id));
      forall other | other in others
        ensures LightBelow(b, other, fuel - 1)
      {
        var child :| child in ids && f(child) == other;
        LightByName(f, a, b, child, d + 1, fuel - 1);
      }
    }
    LightStep(b, f(id), fuel);
  }

  lemma LightChildren(f: string -> string, a: Index, b: Index, id: string, d: nat, fuel: nat)
    requires RenamesIndex(f, a, b) && BySize(f, a) && "" !in a && id in a
    requires Level(ParentsOf(a), id, d) && d + 1 + fuel == MAX_TRACE_DEPTH
    ensures var ids, others := ChildIds(ParentsOf(a), id), ChildIds(ParentsOf(b), f(id));
            && LightFirst(b, others, fuel)
            && (forall child :: child in ids ==> Level(ParentsOf(a), child, d + 1))
            && (forall other :: other in others ==> exists child :: child in ids && f(child) == other)
  {
    hide RenamesIndex, RenamesParents, BySize, Level, LightFirst, ParentsOf, ChildIds, FuelOf, Ascending, HasParent;
    var p, q := ParentsOf(a), ParentsOf(b);
    RenamedSpan(f, a, b, id);
    SameChildren(f, p, q, id);
    ChildLevels(a, id, d);
    SiblingsAscend(q, f(id));
    assert MAX_TRACE_DEPTH - (d + 1) == fuel;
    LightSiblings(f, a, b, ChildIds(p, id), ChildIds(q, f(id)), fuel);
    SameMembersOfImages(f, ChildIds(p, id), ChildIds(q, f(id)));
  }

  lemma RootLevels(index: Index)
    ensures forall root :: root in Roots(ParentsOf(index)) ==>
              root in index && Level(ParentsOf(index), root, 0) && FuelOf(index, root) == MAX_TRACE_DEPTH
  {
    hide LevelIn;
    var p := ParentsOf(index);
    forall root | root in Roots(p)
      ensures LevelIn(p, root) == 0
    {
      LevelIs(p, root, 0);
    }
  }

  // ---- One trace ----

  ghost predicate TraceBounded(index: Index) {
    && TraceSize(TraceOf(index, Written)) <= |index|
    && (TraceSize(TraceOf(index, Written)) == |index| <==> SizeFaithfulTrace(index, Written))
  }

  lemma RootsByName(f: string -> string, a: Index, b: Index)
    requires RenamesIndex(f, a, b) && BySize(f, a) && "" !in a
    ensures LightFirst(b, Roots(ParentsOf(b)), MAX_TRACE_DEPTH)
    ensures forall root :: root in Roots(ParentsOf(b)) ==> Bounded(b, root, MAX_TRACE_DEPTH)
  {
    hide RenamesIndex, RenamesParents, BySize, Level, LightFirst, LightBelow, ParentsOf, Roots, FuelOf, Ascending,
         Bounded, HasParent;
    var p, q := ParentsOf(a), ParentsOf(b);
    var ids, others := Roots(p), Roots(q);
    RenamedParents(f, a, b);
    SameRoots(f, p, q);
    RootLevels(a);
    SiblingsAscend(q, "");
    LightSiblings(f, a, b, ids, others, MAX_TRACE_DEPTH);
    SameMembersOfImages(f, ids, others);
    forall other | other in others
      ensures Bounded(b, other, MAX_TRACE_DEPTH)
    {
      var root :| root in ids && f(root) == other;
      LightByName(f, a, b, root, 0, MAX_TRACE_DEPTH);
      BoundedBelow(b, other, MAX_TRACE_DEPTH);
    }
  }

  lemma TraceByName(f: string -> string, a: Index, b: Index)
    requires RenamesIndex(f, a, b) && BySize(f, a) && "" !in a && "" !in b && TraceAcceptable(ParentsOf(b))
    ensures TraceBounded(b)
  {
    hide RenamesIndex, BySize, LightFirst, ParentsOf, Roots, Bounded, TraceAcceptable, SizeAt, Sum, NodesAt, Gather,
         GroupsSize,
         SizeFaithfulRoots, TreesOf, Written, TraceOf, ParentMissing;
    RootsByName(f, a, b);
    BoundedAmong(b, Roots(ParentsOf(b)), MAX_TRACE_DEPTH);
    SizeOfTrace(b);
    TraceIs(b, Written);
  }

  // ---- The forest ----

  ghost function TraceTextAt(a: seq<RawSpan>): string -> string {
    t => WrittenTrace(TraceOf(IndexIn(a, t), Written))
  }

  lemma ToldTraces(a: seq<RawSpan>)
    ensures SizeFaithfulForest(a, WRITTEN) <==>
            && (forall t :: t in TraceIds(a) ==> SizeFaithfulTrace(IndexIn(a, t), Written))
            && Tells(SortedKeys(TraceIds(a)), TraceTextAt(a), CountIn(a))
  {
    hide Written, WrittenTrace, IndexIn, TraceIds, SizeFaithfulTrace, SortedKeys, TraceOf, TracesOf, CountIn;
    var ids := SortedKeys(TraceIds(a));
    TracesAreImages(a, ids, Written);
    AlikeIsTells(TracesOf(a, ids, Written), WrittenTrace, ids, CountIn(a), ids, TraceTextAt(a), CountIn(a));
  }

  lemma SameOneTrace(r: Renaming, a: seq<RawSpan>, b: seq<RawSpan>, t: string)
    requires Proper(r) && IsRenaming(r, a, b) && Acceptable(a) && Acceptable(b) && t in TraceIds(a) &&
             r.trace(t) in TraceIds(b)
    ensures TraceTextAt(b)(r.trace(t)) == TraceTextAt(a)(t) && CountIn(b)(r.trace(t)) == CountIn(a)(t)
    ensures SizeFaithfulTrace(IndexIn(b, r.trace(t)), Written) <==> SizeFaithfulTrace(IndexIn(a, t), Written)
  {
    hide Proper, IsRenaming, Identified, IndexIn, TraceIds, SizeFaithfulTrace, TraceAcceptable, RenamesIndex, TraceOf,
         SpanIn,
         Written, WrittenTrace;
    SameIndex(r, a, b, t);
    SpansInTrace(a, t);
    SpansInTrace(b, r.trace(t));
    SameTraceText(SpanIn(r, t), IndexIn(a, t), IndexIn(b, r.trace(t)));
    SameTraceSize(SpanIn(r, t), IndexIn(a, t), IndexIn(b, r.trace(t)));
    SameToldTrace(SpanIn(r, t), IndexIn(a, t), IndexIn(b, r.trace(t)));
  }

  /** Whether equal texts stand for equally many spans survives every renaming. */
  lemma SameToldForest(r: Renaming, a: seq<RawSpan>, b: seq<RawSpan>)
    requires Proper(r) && IsRenaming(r, a, b) && Acceptable(a) && Acceptable(b)
    ensures SizeFaithfulForest(b, WRITTEN) <==> SizeFaithfulForest(a, WRITTEN)
  {
    hide Proper, IsRenaming, Acceptable, IndexIn, TraceIds, SizeFaithfulTrace, SortedKeys, TraceTextAt, CountIn, Tells,
         SizeFaithfulForest;
    SameTraceIds(r, a, b);
    ToldTraces(a);
    ToldTraces(b);
    forall t | t in TraceIds(a)
      ensures TraceTextAt(b)(r.trace(t)) == TraceTextAt(a)(t) && CountIn(b)(r.trace(t)) == CountIn(a)(t)
      ensures SizeFaithfulTrace(IndexIn(b, r.trace(t)), Written) <==> SizeFaithfulTrace(IndexIn(a, t), Written)
    {
      SameOneTrace(r, a, b, t);
    }
    TellsRenamed(r.trace, SortedKeys(TraceIds(a)), SortedKeys(TraceIds(b)), TraceTextAt(a), CountIn(a), TraceTextAt(b),
      CountIn(b));
  }

  ghost function ToldTracesAt(a: seq<RawSpan>): string -> bool {
    t => SizeFaithfulTrace(IndexIn(a, t), Written)
  }

  lemma LightTraces(a: seq<RawSpan>, b: seq<RawSpan>, r: Renaming)
    requires Proper(r) && IsRenaming(r, a, b) && Acceptable(a) && Acceptable(b)
    requires Follows(r.trace, TraceIds(a), SizeRanks(a).trace)
    ensures LightestTraces(b, SortedKeys(TraceIds(b)))
  {
    hide Proper, IsRenaming, Acceptable, TraceIds, SortedKeys, CountIn, Follows, Ascending, SizeRanks, ToldTracesAt;
    var ids := SortedKeys(TraceIds(b));
    SameTraceIds(r, a, b);
    SortedKeysAscend(TraceIds(b));
    forall i, j | 0 <= i < j < |ids|
      ensures NoHeavier(ids[i], ids[j], CountIn(b), ToldTracesAt(b))
    {
      assert ids[i] in ids && ids[j] in ids;
      var x :| x in TraceIds(a) && r.trace(x) == ids[i];
      var y :| y in TraceIds(a) && r.trace(y) == ids[j];
      FollowsAt(r.trace, TraceIds(a), SizeRanks(a).trace, ids, i, j, x, y);
      RankOfTrace(r, a, b, x);
      RankOfTrace(r, a, b, y);
    }
  }

  lemma RankOfTrace(r: Renaming, a: seq<RawSpan>, b: seq<RawSpan>, t: string)
    requires Proper(r) && IsRenaming(r, a, b) && Acceptable(a) && Acceptable(b) && t in TraceIds(a) &&
             r.trace(t) in TraceIds(b)
    ensures SizeRanks(a).trace(t) == Graded(CountIn(b)(r.trace(t)), ToldTracesAt(b)(r.trace(t)))
  {
    hide Proper, IsRenaming, Acceptable, IndexIn, TraceIds, SizeFaithfulTrace, CountIn, TraceTextAt;
    SameOneTrace(r, a, b, t);
  }

  lemma NamedBySize(a: seq<RawSpan>, t: string)
    ensures BySize(SpanIn(ByRanks(a, SizeRanks(a)), t), IndexIn(a, t))
  {
    hide IndexIn, SizeRank, SpanIn, ByRanks, AtMost;
    RankedFollows(a, SizeRanks(a), t);
    assert forall id :: RankIn(SizeRanks(a), t)(id) == SizeRank(IndexIn(a, t), id);
  }

  lemma EveryTraceByName(a: seq<RawSpan>, t: string)
    requires Acceptable(a) && Acceptable(Ranked(a, SizeRanks(a))) && t in TraceIds(Ranked(a, SizeRanks(a)))
    ensures TraceBounded(IndexIn(Ranked(a, SizeRanks(a)), t))
  {
    hide Proper, IsRenaming, Identified, IndexIn, TraceIds, TraceAcceptable, SpanIn, ByRanks, Ranked, BySize, SizeRanks,
         TraceBounded,
         RenamesIndex;
    var r, b := ByRanks(a, SizeRanks(a)), Ranked(a, SizeRanks(a));
    RankedProper(a, SizeRanks(a));
    SameTraceIds(r, a, b);
    var was :| was in TraceIds(a) && r.trace(was) == t;
    SameIndex(r, a, b, was);
    NamedBySize(a, was);
    SpansInTrace(a, was);
    SpansInTrace(b, t);
    TraceByName(SpanIn(r, was), IndexIn(a, was), IndexIn(b, t));
  }

  ghost predicate LightestTraces(b: seq<RawSpan>, ids: seq<string>) {
    forall i, j :: 0 <= i < j < |ids| ==> NoHeavier(ids[i], ids[j], CountIn(b), ToldTracesAt(b))
  }

  lemma ForestBounded(b: seq<RawSpan>)
    requires Identified(b) && LightestTraces(b, SortedKeys(TraceIds(b)))
    requires forall id :: id in TraceIds(b) ==> TraceBounded(IndexIn(b, id))
    ensures ForestSize(ForestOf(b, WRITTEN)) == |b| <==> SizeFaithfulForest(b, WRITTEN)
  {
    hide Identified, IndexIn, TraceIds, TraceBounded, SortedKeys, CountIn, SizeFaithfulTrace, TracesOf, TraceSize,
         Gather, Written,
         WrittenTrace, Sum, Weight, WeighAlike, TraceOf;
    var ids := SortedKeys(TraceIds(b));
    TracesBounded(b, ids);
    LightestFirst(TracesOf(b, ids, Written), WrittenTrace, TraceSize, ids, CountIn(b), ToldTracesAt(b));
    SpansByTrace(b);
  }

  /** With the spans and traces named by size, the forest counts all spans exactly when
      equal texts stand for equally many spans. */
  lemma CountedByName(a: seq<RawSpan>)
    requires Acceptable(a)
    ensures var b := Ranked(a, SizeRanks(a));
            Acceptable(b) && (ForestSize(ForestOf(b, WRITTEN)) == |b| <==> SizeFaithfulForest(a, WRITTEN))
  {
    hide Proper, IsRenaming, Identified, IndexIn, TraceIds, TraceAcceptable, ByRanks, Ranked, Follows, TraceBounded,
         SortedKeys, CountIn, SizeFaithfulForest, ForestOf, ForestSize, SizeRanks;
    var r, b := ByRanks(a, SizeRanks(a)), Ranked(a, SizeRanks(a));
    RankedProper(a, SizeRanks(a));
    AcceptanceForgetsNames(r, a, b);
    RankedFollows(a, SizeRanks(a), "");
    LightTraces(a, b, r);
    forall id | id in TraceIds(b)
      ensures TraceBounded(IndexIn(b, id))
    {
      EveryTraceByName(a, id);
    }
    ForestBounded(b);
    SameToldForest(r, a, b);
  }

  lemma TracesBounded(b: seq<RawSpan>, ids: seq<string>)
    requires forall id :: id in ids ==> TraceBounded(IndexIn(b, id))
    ensures var traces := TracesOf(b, ids, Written);
            && (forall i :: 0 <= i < |ids| ==> TraceSize(traces[i]) <= CountIn(b)(ids[i]))
            && (forall i :: 0 <= i < |ids| ==>
               (TraceSize(traces[i]) == CountIn(b)(ids[i]) <==> ToldTracesAt(b)(ids[i])))
  {
    hide IndexIn, TraceOf, SizeFaithfulTrace, TraceSize, Written, TracesOf;
    TracesAreImages(b, ids, Written);
    forall i | 0 <= i < |ids|
      ensures TraceSize(TracesOf(b, ids, Written)[i]) <= CountIn(b)(ids[i])
      ensures TraceSize(TracesOf(b, ids, Written)[i]) == CountIn(b)(ids[i]) <==> ToldTracesAt(b)(ids[i])
    {
      assert ids[i] in ids;
    }
  }

  /** Under every renaming and in every order the forest of written fingerprints stands for
      as many spans as went in: exactly when equal texts of siblings, and of traces, stand
      for equally many spans. Renamings that use no new IDs are enough to tell. */
  lemma WrittenCountsSpansIff(a: seq<RawSpan>)
    requires Acceptable(a)
    ensures (forall r, b :: Proper(r) && IsRenaming(r, a, b) ==> ForestSize(ForestOf(b, WRITTEN)) == |b|) <==>
            SizeFaithfulForest(a, WRITTEN)
    ensures (forall r, b :: Proper(r) && IsRenaming(r, a, b) && NoNewIds(a, b) ==>
            ForestSize(ForestOf(b, WRITTEN)) == |b|) <==>
            SizeFaithfulForest(a, WRITTEN)
  {
    hide Proper, IsRenaming, Acceptable, ForestSize, ForestOf, SizeFaithfulForest, NoNewIds, ByRanks, Ranked, SizeRanks;
    if SizeFaithfulForest(a, WRITTEN) {
      forall r, b | Proper(r) && IsRenaming(r, a, b)
        ensures ForestSize(ForestOf(b, WRITTEN)) == |b|
      {
        AcceptanceForgetsNames(r, a, b);
        SameToldForest(r, a, b);
        ForestSizeKept(b, WRITTEN);
      }
    }
    AcceptableIdentified(a);
    RankedProper(a, SizeRanks(a));
    RankedUsesIds(a, SizeRanks(a));
    CountedByName(a);
  }

  lemma AcceptableIdentified(a: seq<RawSpan>)
    requires Acceptable(a)
    ensures Identified(a)
  {
    hide Identified, TraceAcceptable, IndexIn, TraceIds;
  }
}
