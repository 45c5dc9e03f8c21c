/** Handing out the same keys again so that their text order follows a given rank. */
module Placement {
  import opened Ordering

  function Unary(n: nat): string {
    if n == 0 then "" else "1" + Unary(n - 1)
  }

  lemma {:induction false} UnaryOrder(m: nat, n: nat)
    ensures AtMost(Unary(m), Unary(n)) <==> m <= n
  {
    if m > 0 && n > 0 {
      UnaryOrder(m - 1, n - 1);
      assert Unary(m)[1..] == Unary(m - 1) && Unary(n)[1..] == Unary(n - 1);
    }
  }

  /** The keys in the order of their ranks. */
  function ByRank(keys: set<string>, rank: string -> nat): (r: seq<string>)
    ensures forall k :: k in r <==> k in keys
    ensures |r| == |SortedKeys(keys)|
  {
    var ids := SortedKeys(keys);
    var r := SortBy(ids, id => Unary(rank(id)));
    assert forall k :: k in r <==> k in multiset(r);
    assert forall k :: k in ids <==> k in multiset(ids);
    r
  }

  function PositionOf(s: seq<string>, x: string): (i: nat)
    requires x in s
    ensures i < |s| && s[i] == x
  {
    if s[0] == x then 0 else 1 + PositionOf(s[1..], x)
  }

  /** The i-th key by rank becomes the i-th key by text; other texts stay. */
  function PlaceOne(keys: set<string>, rank: string -> nat, id: string): (r: string)
    ensures r in keys <==> id in keys
    ensures id !in keys ==> r == id
  {
    if id !in keys then id
    else
      var r := SortedKeys(keys)[PositionOf(ByRank(keys, rank), id)];
      assert r in SortedKeys(keys);
      r
  }

  function Place(keys: set<string>, rank: string -> nat): string -> string {
    id => PlaceOne(keys, rank, id)
  }

  lemma PlaceInjective(keys: set<string>, rank: string -> nat, a: string, b: string)
    requires Place(keys, rank)(a) == Place(keys, rank)(b)
    ensures a == b
  {
    hide ByRank;
    if a in keys {
      var i, j := PositionOf(ByRank(keys, rank), a), PositionOf(ByRank(keys, rank), b);
      assert i == j;
    }
  }

  lemma RankAscends(keys: set<string>, rank: string -> nat, i: nat, j: nat)
    requires i <= j < |ByRank(keys, rank)|
    ensures rank(ByRank(keys, rank)[i]) <= rank(ByRank(keys, rank)[j])
  {
    var r := ByRank(keys, rank);
    UnaryOrder(rank(r[i]), rank(r[j]));
    if i < j {
      assert Ascending(r, id => Unary(rank(id)));
    }
  }

  /** A key placed before another has no higher rank. */
  lemma PlacedByRank(keys: set<string>, rank: string -> nat, a: string, b: string)
    requires a in keys && b in keys && AtMost(Place(keys, rank)(a), Place(keys, rank)(b))
    ensures rank(a) <= rank(b)
  {
    hide ByRank, AtMost;
    var i, j := PositionOf(ByRank(keys, rank), a), PositionOf(ByRank(keys, rank), b);
    if i <= j {
      RankAscends(keys, rank, i, j);
    } else {
      SortedKeysAscend(keys);
      assert AtMost(Same(SortedKeys(keys)[j]), Same(SortedKeys(keys)[i]));
      Antisymmetric(Place(keys, rank)(a), Place(keys, rank)(b));
      PlaceInjective(keys, rank, a, b);
    }
  }
}
