/** Renamings that hand out the IDs already in use so that any wanted order of siblings and
    of traces is the order of their new IDs. */
module RankedRenaming {
  import opened ForestRenaming
  import opened ForestSizes
  import opened Ordering
  import opened ParentChains
  import opened Placement
  import opened TraceForest

  // Lower ranks get smaller IDs.
  datatype Ranks = Ranks(trace: string -> nat, span: (string, string) -> nat)

  function RankIn(ranks: Ranks, traceId: string): string -> nat {
    id => ranks.span(traceId, id)
  }

  ghost function ByRanks(a: seq<RawSpan>, ranks: Ranks): Renaming {
    Renaming(Place(TraceIds(a), ranks.trace),
             (traceId: string, id: string) => PlaceOne(IndexIn(a, traceId).Keys, RankIn(ranks, traceId), id))
  }

  ghost function Ranked(a: seq<RawSpan>, ranks: Ranks): seq<RawSpan> {
    Images(a, s => Renamed(ByRanks(a, ranks), s))
  }

  /** Every ID of the span occurs in the list. */
  ghost predicate OldIds(a: seq<RawSpan>, s: RawSpan) {
    && (exists was :: was in a && was.traceId == s.traceId)
    && (exists was :: was in a && was.spanId == s.spanId)
    && (exists was :: was in a && (was.parentId == s.parentId || was.spanId == s.parentId))
  }

  /** The second list uses no ID that the first one does not use. */
  ghost predicate NoNewIds(a: seq<RawSpan>, b: seq<RawSpan>) {
    forall s :: s in b ==> OldIds(a, s)
  }

  lemma SpanPlace(a: seq<RawSpan>, ranks: Ranks, traceId: string)
    ensures forall id :: SpanIn(ByRanks(a, ranks), traceId)(id) ==
                         Place(IndexIn(a, traceId).Keys, RankIn(ranks, traceId))(id)
  {
  }

  lemma PlaceIsProper(keys: set<string>, rank: string -> nat, f: string -> string)
    requires "" !in keys && forall id :: f(id) == Place(keys, rank)(id)
    ensures Injective(f) && KeepsNonempty(f)
  {
    hide PlaceOne;
    forall a, b | f(a) == f(b)
      ensures a == b
    {
      PlaceInjective(keys, rank, a, b);
    }
  }

  lemma NoEmptyIds(a: seq<RawSpan>, traceId: string)
    requires Identified(a)
    ensures "" !in TraceIds(a) && "" !in IndexIn(a, traceId)
  {
    hide IndexIn;
    IndexHolds(a, traceId);
    NamedSpans(a);
  }

  lemma RankedProper(a: seq<RawSpan>, ranks: Ranks)
    requires Identified(a)
    ensures Proper(ByRanks(a, ranks)) && IsRenaming(ByRanks(a, ranks), a, Ranked(a, ranks))
  {
    hide IndexIn, TraceIds, Identified, Place, PlaceOne, Injective, KeepsNonempty, SpanIn;
    var r := ByRanks(a, ranks);
    NoEmptyIds(a, "");
    PlaceIsProper(TraceIds(a), ranks.trace, r.trace);
    forall t
      ensures Injective(SpanIn(r, t)) && KeepsNonempty(SpanIn(r, t))
    {
      NoEmptyIds(a, t);
      SpanPlace(a, ranks, t);
      PlaceIsProper(IndexIn(a, t).Keys, RankIn(ranks, t), SpanIn(r, t));
    }
  }

  lemma RankedUsesIds(a: seq<RawSpan>, ranks: Ranks)
    requires Identified(a)
    ensures NoNewIds(a, Ranked(a, ranks))
  {
    hide Identified, IndexIn, TraceIds, OldIds, ByRanks, Renamed;
    var r := ByRanks(a, ranks);
    forall i | 0 <= i < |a|
      ensures OldIds(a, Renamed(r, a[i]))
    {
      RenamedUsesIds(a, ranks, a[i]);
    }
    forall s | s in Ranked(a, ranks)
      ensures OldIds(a, s)
    {
      var i :| 0 <= i < |a| && Ranked(a, ranks)[i] == s;
    }
  }

  lemma RenamedUsesIds(a: seq<RawSpan>, ranks: Ranks, s: RawSpan)
    requires Identified(a) && s in a
    ensures OldIds(a, Renamed(ByRanks(a, ranks), s))
  {
    hide Identified, PlaceOne, IndexIn, TraceIds;
    var index := IndexIn(a, s.traceId);
    var now := Renamed(ByRanks(a, ranks), s);
    IndexHolds(a, s.traceId);
    var i :| 0 <= i < |a| && a[i] == s;
    assert a[i].traceId == s.traceId;
    assert s.traceId in TraceIds(a);
    var j :| 0 <= j < |a| && a[j].traceId == now.traceId;
    assert a[j] in a;
    assert now.spanId in index && index[now.spanId] in a;
    if s.parentId != "" && s.parentId in index {
      assert now.parentId in index && index[now.parentId] in a;
    } else {
      assert now.parentId == s.parentId;
    }
  }

  // ---- The order of siblings ----

  lemma {:induction false} ChildrenAscend(p: Parents, keys: seq<string>, id: string)
    requires Distinct(keys) && Ascending(keys, Same) && forall k :: k in keys ==> k in p
    ensures Ascending(ChildrenAmong(p, keys, id), Same)
    ensures Ascending(RootsAmong(p, keys), Same)
  {
    hide AtMost, HasParent;
    if keys != [] {
      var n := |keys| - 1;
      assert keys == keys[..n] + [keys[n]];
      ChildrenAscend(p, keys[..n], id);
      BehindAll(ChildrenAmong(p, keys[..n], id), keys);
      BehindAll(RootsAmong(p, keys[..n]), keys);
    }
  }

  lemma BehindAll(s: seq<string>, keys: seq<string>)
    requires keys != [] && Ascending(keys, Same) && Ascending(s, Same)
    requires forall k :: k in s ==> k in keys[..|keys| - 1]
    ensures Ascending(s + [keys[|keys| - 1]], Same)
  {
    hide AtMost;
    var n := |keys| - 1;
    forall i | 0 <= i < |s|
      ensures AtMost(s[i], keys[n])
    {
      assert s[i] in s;
      var j :| 0 <= j < n && keys[j] == s[i];
      assert AtMost(Same(keys[j]), Same(keys[n]));
    }
  }

  lemma SiblingsAscend(p: Parents, id: string)
    ensures Ascending(ChildIds(p, id), Same) && Ascending(Roots(p), Same)
  {
    hide Ascending, ChildrenAmong, RootsAmong;
    SortedKeysAscend(p.Keys);
    ChildrenAscend(p, SortedKeys(p.Keys), id);
  }

  /** The new IDs of a trace follow the ranks. */
  ghost predicate Follows(f: string -> string, keys: set<string>, rank: string -> nat) {
    forall x, y {:trigger f(x), f(y)} :: x in keys && y in keys && AtMost(f(x), f(y)) ==> rank(x) <= rank(y)
  }

  lemma RankedFollows(a: seq<RawSpan>, ranks: Ranks, traceId: string)
    ensures Follows(ByRanks(a, ranks).trace, TraceIds(a), ranks.trace)
    ensures Follows(SpanIn(ByRanks(a, ranks), traceId), IndexIn(a, traceId).Keys, RankIn(ranks, traceId))
  {
    hide AtMost, PlaceOne, IndexIn, TraceIds;
    var f := ByRanks(a, ranks).trace;
    forall x, y | x in TraceIds(a) && y in TraceIds(a) && AtMost(f(x), f(y))
      ensures ranks.trace(x) <= ranks.trace(y)
    {
      PlacedByRank(TraceIds(a), ranks.trace, x, y);
    }
    var keys, g := IndexIn(a, traceId).Keys, SpanIn(ByRanks(a, ranks), traceId);
    SpanPlace(a, ranks, traceId);
    forall x, y | x in keys && y in keys && AtMost(g(x), g(y))
      ensures RankIn(ranks, traceId)(x) <= RankIn(ranks, traceId)(y)
    {
      PlacedByRank(keys, RankIn(ranks, traceId), x, y);
    }
  }

  /** Of two siblings in the new order, the first had no higher rank. */
  lemma FollowsAt(f: string -> string, keys: set<string>, rank: string -> nat, others: seq<string>, i: nat, j: nat,
                  x: string, y: string)
    requires Follows(f, keys, rank) && Ascending(others, Same) && i <= j < |others|
    requires x in keys && y in keys && others[i] == f(x) && others[j] == f(y)
    ensures rank(x) <= rank(y)
  {
    hide AtMost;
    if i < j {
      assert AtMost(Same(others[i]), Same(others[j]));
    } else {
      Total(f(x), f(x));
    }
    assert AtMost(f(x), f(y));
  }
}
