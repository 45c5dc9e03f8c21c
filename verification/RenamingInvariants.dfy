/** What no renaming changes, whether or not fingerprints tell nodes apart: the written text
    of every span's node, the number of spans below it, and whether texts tell sizes apart. */
module RenamingInvariants {
  import opened Fingerprint
  import opened ForestRenaming
  import opened ForestSizes
  import opened Grouping
  import opened Ordering
  import opened ParentChains
  import opened TraceForest

  // ---- Texts ----

  function KeyText(groups: seq<Group<string>>): string {
    if groups == [] then ""
    else
      var last := groups[|groups| - 1];
      KeyText(groups[..|groups| - 1]) + (Count(last.count) + last.item)
  }

  lemma {:induction false} WrittenFromKeys(groups: seq<Group<Node>>)
    ensures WrittenAll(groups) == KeyText(Images(groups, KeyGroup(Written)))
  {
    hide Written, Count;
    if groups != [] {
      var n := |groups| - 1;
      WrittenFromKeys(groups[..n]);
      assert Images(groups, KeyGroup(Written))[..n] == Images(groups[..n], KeyGroup(Written));
    }
  }

  /** The text of grouped nodes depends only on how often each text occurs among them. */
  lemma GatheredText(a: seq<Node>, b: seq<Node>)
    requires multiset(Images(a, Written)) == multiset(Images(b, Written))
    ensures WrittenAll(Gather(a, Written)) == WrittenAll(Gather(b, Written))
  {
    hide Written, WrittenAll, Gather, KeyText;
    SameKeysSameGroups(a, b, Written);
    WrittenFromKeys(Gather(a, Written));
    WrittenFromKeys(Gather(b, Written));
  }

  function TextAt(index: Index, fuel: nat): string -> string {
    id => Written(NodeAt(index, id, fuel, Written))
  }

  lemma TextsOfNodes(index: Index, ids: seq<string>, fuel: nat)
    ensures Images(NodesAt(index, ids, fuel, Written), Written) == Images(ids, TextAt(index, fuel))
  {
    hide Written, NodeAt, NodesAt;
    NodesAreImages(index, ids, fuel, Written);
  }

  lemma SameTexts(f: string -> string, a: Index, b: Index, ids: seq<string>, others: seq<string>, fuel: nat)
    requires multiset(others) == multiset(Images(ids, f))
    requires forall id :: id in ids ==> TextAt(b, fuel)(f(id)) == TextAt(a, fuel)(id)
    ensures WrittenAll(Gather(NodesAt(b, others, fuel, Written), Written)) ==
            WrittenAll(Gather(NodesAt(a, ids, fuel, Written), Written))
  {
    hide Written, WrittenAll, NodesAt, Gather, TextAt;
    var was, now := TextAt(a, fuel), TextAt(b, fuel);
    TextsOfNodes(a, ids, fuel);
    TextsOfNodes(b, others, fuel);
    SameMultisetOfImages(others, Images(ids, f), now);
    forall i | 0 <= i < |ids|
      ensures now(f(ids[i])) == was(ids[i])
    {
      assert ids[i] in ids;
    }
    assert Images(Images(ids, f), now) == Images(ids, was);
    GatheredText(NodesAt(b, others, fuel, Written), NodesAt(a, ids, fuel, Written));
  }

  /** The written text of a span's node survives every renaming. */
  lemma {:induction false} SameText(f: string -> string, a: Index, b: Index, id: string, fuel: nat)
    requires RenamesIndex(f, a, b) && id in a
    ensures TextAt(b, fuel)(f(id)) == TextAt(a, fuel)(id)
    decreases fuel
  {
    hide RenamesIndex, RenamesParents, ChildIds, Written, WrittenAll, NodeAt, NodesAt, ParentsOf, Gather;
    RenamedSpan(f, a, b, id);
    if fuel == 0 {
      NoChildren(a, id, Written);
      NoChildren(b, f(id), Written);
    } else {
      forall child | child in ChildIds(ParentsOf(a), id)
        ensures TextAt(b, fuel - 1)(f(child)) == TextAt(a, fuel - 1)(child)
      {
        SameText(f, a, b, child, fuel - 1);
      }
      SameChildren(f, ParentsOf(a), ParentsOf(b), id);
      SameTexts(f, a, b, ChildIds(ParentsOf(a), id), ChildIds(ParentsOf(b), f(id)), fuel - 1);
      NodeAtStep(a, id, fuel, Written);
      NodeAtStep(b, f(id), fuel, Written);
      WrittenIs(NodeAt(a, id, fuel, Written));
      WrittenIs(NodeAt(b, f(id), fuel, Written));
    }
  }

  lemma TraceIs(index: Index, key: Node -> string)
    ensures var p := ParentsOf(index);
            TraceOf(index, key) == Trace(if ParentMissing(p) then Partial else Complete,
                                         Gather(NodesAt(index, Roots(p), MAX_TRACE_DEPTH, key), key))
  {
    hide Gather, GroupedAll, Roots, TreesOf, ParentMissing;
  }

  /** So does the written text of a trace. */
  lemma SameTraceText(f: string -> string, a: Index, b: Index)
    requires RenamesIndex(f, a, b)
    ensures WrittenTrace(TraceOf(b, Written)) == WrittenTrace(TraceOf(a, Written))
  {
    hide RenamesIndex, RenamesParents, Roots, Written, WrittenAll, NodesAt, ParentsOf, Gather, TextAt, ParentMissing,
         TraceOf;
    RenamedParents(f, a, b);
    SameParentMissing(f, ParentsOf(a), ParentsOf(b));
    SameRoots(f, ParentsOf(a), ParentsOf(b));
    forall root | root in Roots(ParentsOf(a))
      ensures TextAt(b, MAX_TRACE_DEPTH)(f(root)) == TextAt(a, MAX_TRACE_DEPTH)(root)
    {
      SameText(f, a, b, root, MAX_TRACE_DEPTH);
    }
    SameTexts(f, a, b, Roots(ParentsOf(a)), Roots(ParentsOf(b)), MAX_TRACE_DEPTH);
    TraceIs(a, Written);
    TraceIs(b, Written);
  }

  // ---- Sizes ----

  function SizeAt(index: Index, fuel: nat): string -> nat {
    id => TreeSize(TreeOf(ParentsOf(index), id, fuel))
  }

  lemma {:induction false} SumOfImages<A, B>(s: seq<A>, f: A -> B, size: B -> nat, direct: A -> nat)
    requires forall x :: x in s ==> size(f(x)) == direct(x)
    ensures Sum(Images(s, f), size) == Sum(s, direct)
  {
    if s != [] {
      var n := |s| - 1;
      assert s == s[..n] + [s[n]];
      assert Images(s, f)[..n] == Images(s[..n], f);
      SumOfImages(s[..n], f, size, direct);
    }
  }

  lemma SizeOfTrees(index: Index, ids: seq<string>, fuel: nat)
    ensures |IdsOfAll(TreesOf(ParentsOf(index), ids, fuel))| == Sum(ids, SizeAt(index, fuel))
  {
    hide TreeSize, IdsOfAll, TreeOf, Sum;
    var trees := TreesOf(ParentsOf(index), ids, fuel);
    var at := id => TreeOf(ParentsOf(index), id, fuel);
    SumOfSizes(trees);
    assert trees == Images(ids, at);
    SumOfImages(ids, at, TreeSize, SizeAt(index, fuel));
  }

  lemma SizeStep(index: Index, id: string, fuel: nat)
    ensures SizeAt(index, fuel)(id) ==
            if fuel == 0 then 1 else 1 + Sum(ChildIds(ParentsOf(index), id), SizeAt(index, fuel - 1))
  {
    hide IdsOfAll, Ids, ChildIds, TreesOf, Sum;
    var t := TreeOf(ParentsOf(index), id, fuel);
    IdsSize(t);
    if fuel == 0 {
      assert IdsOfAll([]) == multiset{} by {
        NoIds();
      }
    } else {
      SizeOfTrees(index, ChildIds(ParentsOf(index), id), fuel - 1);
    }
  }

  lemma NoIds()
    ensures IdsOfAll([]) == multiset{}
  {
  }

  lemma SameSum(f: string -> string, ids: seq<string>, others: seq<string>, was: string -> nat, now: string -> nat)
    requires multiset(others) == multiset(Images(ids, f))
    requires forall id :: id in ids ==> now(f(id)) == was(id)
    ensures Sum(others, now) == Sum(ids, was)
  {
    hide Sum;
    SumOfSame(others, Images(ids, f), now);
    SumOfImages(ids, f, now, was);
  }

  /** The number of spans below a span survives every renaming. */
  lemma {:induction false} SameSizeBelow(f: string -> string, a: Index, b: Index, id: string, fuel: nat)
    requires RenamesIndex(f, a, b) && id in a
    ensures SizeAt(b, fuel)(f(id)) == SizeAt(a, fuel)(id)
    decreases fuel
  {
    hide RenamesIndex, RenamesParents, ChildIds, SizeAt, ParentsOf, Sum;
    RenamedParents(f, a, b);
    SizeStep(a, id, fuel);
    SizeStep(b, f(id), fuel);
    if fuel > 0 {
      ChildrenIn(a, id);
      forall child | child in ChildIds(ParentsOf(a), id)
        ensures SizeAt(b, fuel - 1)(f(child)) == SizeAt(a, fuel - 1)(child)
      {
        SameSizeBelow(f, a, b, child, fuel - 1);
      }
      RenamedSpan(f, a, b, id);
      SameChildren(f, ParentsOf(a), ParentsOf(b), id);
      SameSum(f, ChildIds(ParentsOf(a), id), ChildIds(ParentsOf(b), f(id)), SizeAt(a, fuel - 1), SizeAt(b, fuel - 1));
    }
  }

  lemma ChildrenIn(index: Index, id: string)
    ensures forall child :: child in ChildIds(ParentsOf(index), id) ==> child in index
    ensures forall root :: root in Roots(ParentsOf(index)) ==> root in index
  {
  }

  lemma SizeOfTrace(index: Index)
    requires TraceAcceptable(ParentsOf(index)) && "" !in index
    ensures |index| == Sum(Roots(ParentsOf(index)), SizeAt(index, MAX_TRACE_DEPTH))
  {
    hide Roots, TraceAcceptable, IdsOfAll, Sum, TreesOf, SizeAt;
    TreesHoldTrace(index);
    SizeOfTrees(index, Roots(ParentsOf(index)), MAX_TRACE_DEPTH);
  }

  lemma SameTraceSize(f: string -> string, a: Index, b: Index)
    requires RenamesIndex(f, a, b) && TraceAcceptable(ParentsOf(a)) && "" !in a && "" !in b
    ensures |b| == |a|
  {
    hide RenamesIndex, RenamesParents, Roots, TraceAcceptable, SizeAt, ParentsOf, Sum;
    RenamedParents(f, a, b);
    SameAcceptable(f, ParentsOf(a), ParentsOf(b));
    ChildrenIn(a, "");
    forall root | root in Roots(ParentsOf(a))
      ensures SizeAt(b, MAX_TRACE_DEPTH)(f(root)) == SizeAt(a, MAX_TRACE_DEPTH)(root)
    {
      SameSizeBelow(f, a, b, root, MAX_TRACE_DEPTH);
    }
    SameRoots(f, ParentsOf(a), ParentsOf(b));
    SameSum(f, Roots(ParentsOf(a)), Roots(ParentsOf(b)), SizeAt(a, MAX_TRACE_DEPTH), SizeAt(b, MAX_TRACE_DEPTH));
    SizeOfTrace(a);
    SizeOfTrace(b);
  }

  // ---- Whether texts tell sizes apart ----

  lemma TellsByTree(index: Index, ids: seq<string>, fuel: nat)
    ensures var trees := TreesOf(ParentsOf(index), ids, fuel);
            WeighAlike(GroupedAll(index, trees, Written), Written, trees, TreeSize) <==>
            Tells(ids, TextAt(index, fuel), SizeAt(index, fuel))
  {
    hide TreeSize, Grouped, GroupedAll, Written, TreeOf;
    var trees := TreesOf(ParentsOf(index), ids, fuel);
    GroupedAt(index, trees, Written);
    AlikeIsTells(GroupedAll(index, trees, Written), Written, trees, TreeSize, ids, TextAt(index, fuel),
      SizeAt(index, fuel));
  }

  ghost predicate ToldBelow(index: Index, id: string, fuel: nat) {
    SizeFaithful(index, TreeOf(ParentsOf(index), id, fuel), Written)
  }

  lemma ToldAmong(index: Index, ids: seq<string>, fuel: nat)
    ensures SizeFaithfulRoots(index, TreesOf(ParentsOf(index), ids, fuel), Written) <==>
            Tells(ids, TextAt(index, fuel), SizeAt(index, fuel)) &&
            forall id :: id in ids ==> ToldBelow(index, id, fuel)
  {
    hide WeighAlike, SizeFaithful, TreeSize, GroupedAll, Written, TreeOf, Tells, TextAt, SizeAt;
    var trees := TreesOf(ParentsOf(index), ids, fuel);
    TellsByTree(index, ids, fuel);
    forall i | 0 <= i < |ids|
      ensures ids[i] in ids && (ToldBelow(index, ids[i], fuel) <==> SizeFaithful(index, trees[i], Written))
    {
    }
    if SizeFaithfulRoots(index, trees, Written) {
      forall id | id in ids
        ensures ToldBelow(index, id, fuel)
      {
        var i :| 0 <= i < |ids| && ids[i] == id;
      }
    }
  }

  lemma ToldStep(index: Index, id: string, fuel: nat)
    ensures ToldBelow(index, id, 0)
    ensures fuel > 0 ==> (ToldBelow(index, id, fuel) <==>
                          SizeFaithfulRoots(index, TreesOf(ParentsOf(index), ChildIds(ParentsOf(index), id), fuel - 1),
                            Written))
  {
    hide WeighAlike, TreeSize, GroupedAll, Written, TreesOf, ChildIds;
    assert WeighAlike(GroupedAll(index, [], Written), Written, [], TreeSize) by {
      NothingAlike(index);
    }
  }

  lemma NothingAlike(index: Index)
    ensures WeighAlike(GroupedAll(index, [], Written), Written, [], TreeSize)
  {
  }

  lemma SameTold(f: string -> string, a: Index, b: Index, ids: seq<string>, others: seq<string>, fuel: nat)
    requires RenamesIndex(f, a, b) && multiset(others) == multiset(Images(ids, f))
    requires forall id :: id in ids ==> id in a && (ToldBelow(b, f(id), fuel) <==> ToldBelow(a, id, fuel))
    ensures SizeFaithfulRoots(b, TreesOf(ParentsOf(b), others, fuel), Written) <==>
            SizeFaithfulRoots(a, TreesOf(ParentsOf(a), ids, fuel), Written)
  {
    hide RenamesIndex, ToldBelow, SizeFaithfulRoots, TextAt, SizeAt, TreesOf, ParentsOf, Tells;
    ToldAmong(a, ids, fuel);
    ToldAmong(b, others, fuel);
    SameMembersOfImages(f, ids, others);
    forall id | id in ids
      ensures TextAt(b, fuel)(f(id)) == TextAt(a, fuel)(id) && SizeAt(b, fuel)(f(id)) == SizeAt(a, fuel)(id)
    {
      SameText(f, a, b, id, fuel);
      SameSizeBelow(f, a, b, id, fuel);
    }
    TellsRenamed(f, ids, others, TextAt(a, fuel), SizeAt(a, fuel), TextAt(b, fuel), SizeAt(b, fuel));
  }

  /** Whether texts tell sizes apart below a span survives every renaming. */
  lemma {:induction false} SameToldBelow(f: string -> string, a: Index, b: Index, id: string, fuel: nat)
    requires RenamesIndex(f, a, b) && id in a
    ensures ToldBelow(b, f(id), fuel) <==> ToldBelow(a, id, fuel)
    decreases fuel
  {
    hide RenamesIndex, RenamesParents, ChildIds, SizeFaithfulRoots, ParentsOf, TreesOf, ToldBelow;
    ToldStep(a, id, fuel);
    ToldStep(b, f(id), fuel);
    if fuel > 0 {
      ChildrenIn(a, id);
      forall child | child in ChildIds(ParentsOf(a), id)
        ensures ToldBelow(b, f(child), fuel - 1) <==> ToldBelow(a, child, fuel - 1)
      {
        SameToldBelow(f, a, b, child, fuel - 1);
      }
      RenamedSpan(f, a, b, id);
      SameChildren(f, ParentsOf(a), ParentsOf(b), id);
      SameTold(f, a, b, ChildIds(ParentsOf(a), id), ChildIds(ParentsOf(b), f(id)), fuel - 1);
    }
  }

  /** The same for a whole trace. */
  lemma SameToldTrace(f: string -> string, a: Index, b: Index)
    requires RenamesIndex(f, a, b)
    ensures SizeFaithfulTrace(b, Written) <==> SizeFaithfulTrace(a, Written)
  {
    hide RenamesIndex, RenamesParents, Roots, SizeFaithfulRoots, ParentsOf, TreesOf, ToldBelow;
    RenamedParents(f, a, b);
    ChildrenIn(a, "");
    forall root | root in Roots(ParentsOf(a))
      ensures ToldBelow(b, f(root), MAX_TRACE_DEPTH) <==> ToldBelow(a, root, MAX_TRACE_DEPTH)
    {
      SameToldBelow(f, a, b, root, MAX_TRACE_DEPTH);
    }
    SameRoots(f, ParentsOf(a), ParentsOf(b));
    SameTold(f, a, b, Roots(ParentsOf(a)), Roots(ParentsOf(b)), MAX_TRACE_DEPTH);
  }
}
