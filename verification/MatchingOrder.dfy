/** Exactly when the greedy matching finds every eligible baseline in every order. */
module MatchingOrder {
  import opened CaptureMatching
  import opened IdentityCounts
  import Ordering

  // ---- Reordered lists ----

  /** The k-th element of the new list stood at pi[k]. */
  ghost predicate Permutes<T>(pi: seq<nat>, s: seq<T>, t: seq<T>) {
    && |pi| == |t| == |s| && Ordering.Distinct(pi)
    && (forall k :: 0 <= k < |pi| ==> pi[k] < |s| && t[k] == s[pi[k]])
    && (forall i :: 0 <= i < |s| ==> i in pi)
  }

  /** A list with the same elements is a permutation. */
  lemma {:induction false} PermutationOf<T>(s: seq<T>, t: seq<T>) returns (pi: seq<nat>)
    requires multiset(t) == multiset(s)
    ensures Permutes(pi, s, t)
    decreases |t|
  {
    hide Permutes;
    Ordering.SameSize(s, t);
    if t == [] {
      pi := [];
      NothingPermuted(s, t);
    } else {
      var n := |t| - 1;
      assert t[n] in multiset(s);
      var i :| 0 <= i < |s| && s[i] == t[n];
      assert s == s[..i] + [s[i]] + s[i + 1..];
      Ordering.WithoutLast(t);
      var shorter := PermutationOf(s[..i] + s[i + 1..], t[..n]);
      pi := Opened(shorter, i) + [i];
      PermutesMore(s, t, i, shorter);
    }
  }

  lemma NothingPermuted<T>(s: seq<T>, t: seq<T>)
    requires s == [] && t == []
    ensures Permutes([], s, t)
  {
  }

  // The same positions when a further element stands at position i.
  function Opened(pi: seq<nat>, i: nat): (r: seq<nat>)
    ensures |r| == |pi| && forall k :: 0 <= k < |pi| ==> r[k] == if pi[k] < i then pi[k] else pi[k] + 1
  {
    seq(|pi|, k requires 0 <= k < |pi| => if pi[k] < i then pi[k] else pi[k] + 1)
  }

  lemma PermutesMore<T>(s: seq<T>, t: seq<T>, i: nat, pi: seq<nat>)
    requires i < |s| && t != [] && s[i] == t[|t| - 1] && Permutes(pi, s[..i] + s[i + 1..], t[..|t| - 1])
    ensures Permutes(Opened(pi, i) + [i], s, t)
  {
    var r := Opened(pi, i) + [i];
    var n := |pi|;
    forall j | 0 <= j < |s|
      ensures j in r
    {
      if j == i {
        assert r[n] == j;
      } else {
        var m := if j < i then j else j - 1;
        assert m in pi;
        var k :| 0 <= k < n && pi[k] == m;
        assert r[k] == j;
      }
    }
    forall k | 0 <= k < n
      ensures r[k] < |s| && r[k] != i && t[k] == s[r[k]]
    {
      assert t[..|t| - 1][k] == (s[..i] + s[i + 1..])[pi[k]];
    }
    forall k, l | 0 <= k < l < |r|
      ensures r[k] != r[l]
    {
      assert l < n ==> pi[k] != pi[l];
    }
  }

  lemma Numbers(n: nat) returns (all: seq<nat>)
    ensures |all| == n && Ordering.Distinct(all) && forall k :: 0 <= k < n ==> all[k] == k
    ensures forall k: nat :: k in all <==> k < n
  {
    all := seq(n, k requires 0 <= k < n => k);
    forall k: nat
      ensures k in all <==> k < n
    {
      if k < n {
        assert all[k] == k;
      }
    }
  }

  lemma {:induction false} Listing(s: set<nat>) returns (l: seq<nat>)
    ensures Ordering.Distinct(l) && |l| == |s| && forall k :: k in l <==> k in s
    decreases |s|
  {
    if s == {} {
      l := [];
    } else {
      var k :| k in s;
      var rest := Listing(s - {k});
      l := rest + [k];
    }
  }

  function Picked<T>(s: seq<T>, pi: seq<nat>): (t: seq<T>)
    requires forall k: nat :: k in pi ==> k < |s|
    ensures |t| == |pi| && forall k :: 0 <= k < |pi| ==> pi[k] in pi && t[k] == s[pi[k]]
  {
    seq(|pi|, k requires 0 <= k < |pi| => assert pi[k] in pi; s[pi[k]])
  }

  /** Picking every position once gives the same elements. */
  lemma PickedSame<T>(s: seq<T>, pi: seq<nat>)
    requires Ordering.Distinct(pi) && forall k: nat :: k in pi <==> k < |s|
    ensures multiset(Picked(s, pi)) == multiset(s)
  {
    var all := Numbers(|s|);
    Ordering.DistinctSame(pi, all);
    Ordering.SameSize(pi, all);
    if s == [] {
      assert Picked(s, pi) == s;
    } else {
      var first := s[0];
      var at := (k: nat) => if k < |s| then s[k] else first;
      Ordering.SameMultisetOfImages(pi, all, at);
      assert Ordering.Images(all, at) == s;
      assert Ordering.Images(pi, at) == Picked(s, pi);
    }
  }

  // ---- What stands in the way ----

  /** A matching that leaves an eligible baseline out and takes every record that this
      baseline could have had. */
  ghost predicate Obstructs(before: seq<Stream>, after: seq<Stream>, limit: int, b: nat, p: Partners) {
    && EligibleAt(before, limit, b) && IsMatching(before, after, limit, p) && b !in p
    && forall a: nat {:trigger Pair(before, after, limit, b, a)} :: Pair(before, after, limit, b, a) ==> a in p.Values
  }

  ghost function Expected(before: seq<Stream>, limit: int): nat {
    Total(Sizes(Collected(before, limit)))
  }

  ghost function Present(before: seq<Stream>, after: seq<Stream>, limit: int): nat {
    Total(Greedy(before, after, limit).preserved)
  }

  /** An incomplete result leaves an obstruction. */
  lemma IncompleteIsObstructed(before: seq<Stream>, after: seq<Stream>, limit: int) returns (b: nat, p: Partners)
    requires Present(before, after, limit) != Expected(before, limit)
    ensures Obstructs(before, after, limit, b, p)
  {
    hide Pair, EligibleAt, Greedy, Collected, Total, Heads, HoldsEligible;
    p := GreedyIsMaximalMatching(before, after, limit);
    CompleteIffAllMatched(before, after, limit, p);
    b :| EligibleAt(before, limit, b) && b !in p;
  }

  lemma PairMoved(before: seq<Stream>, after: seq<Stream>, limit: int, before2: seq<Stream>, after2: seq<Stream>,
                  pi: seq<nat>, si: seq<nat>, b: nat, a: nat)
    requires Permutes(pi, before, before2) && Permutes(si, after, after2) && b < |pi| && a < |si|
    ensures Pair(before2, after2, limit, b, a) <==> Pair(before, after, limit, pi[b], si[a])
  {
    hide Matches, IsEligible;
  }

  /** An obstruction of the reordered lists is one of the original lists. */
  lemma ObstructionMovesBack(before: seq<Stream>, after: seq<Stream>, limit: int, before2: seq<Stream>,
                             after2: seq<Stream>,
                             pi: seq<nat>, si: seq<nat>, c: nat, q: Partners)
    returns (b: nat, p: Partners)
    requires Permutes(pi, before, before2) && Permutes(si, after, after2) && Obstructs(before2, after2, limit, c, q)
    ensures Obstructs(before, after, limit, b, p)
  {
    hide Pair, IsEligible, Permutes;
    InRange(before2, after2, limit, q);
    PermutesInRange(pi, before, before2);
    PermutesInRange(si, after, after2);
    b := pi[c];
    p := map d | d in q :: pi[d] := si[q[d]];
    MatchingMovesBack(before, after, limit, before2, after2, pi, si, q, p);
    assert EligibleAt(before, limit, b) by {
      EligibleMoved(before, limit, before2, pi, c);
    }
    forall a: nat | Pair(before, after, limit, b, a)
      ensures a in p.Values
    {
      PairBound(before, after, limit, b, a);
      var e := WasAt(si, after, after2, a);
      PairMoved(before, after, limit, before2, after2, pi, si, c, e);
      var d :| d in q && q[d] == e;
      assert p[pi[d]] == a;
    }
  }

  lemma PermutesInRange<T>(pi: seq<nat>, s: seq<T>, t: seq<T>)
    requires Permutes(pi, s, t)
    ensures |pi| == |s| == |t| && forall k :: 0 <= k < |pi| ==> pi[k] < |s|
    ensures forall k, l :: 0 <= k < |pi| && 0 <= l < |pi| && pi[k] == pi[l] ==> k == l
  {
  }

  lemma WasAt<T>(pi: seq<nat>, s: seq<T>, t: seq<T>, i: nat) returns (k: nat)
    requires Permutes(pi, s, t) && i < |s|
    ensures k < |pi| && pi[k] == i
  {
    assert i in pi;
    k :| 0 <= k < |pi| && pi[k] == i;
  }

  lemma EligibleMoved(before: seq<Stream>, limit: int, before2: seq<Stream>, pi: seq<nat>, c: nat)
    requires Permutes(pi, before, before2) && EligibleAt(before2, limit, c)
    ensures c < |pi| && EligibleAt(before, limit, pi[c])
  {
    hide IsEligible;
  }

  lemma MatchingMovesBack(before: seq<Stream>, after: seq<Stream>, limit: int, before2: seq<Stream>,
                          after2: seq<Stream>,
                          pi: seq<nat>, si: seq<nat>, q: Partners, p: Partners)
    requires Permutes(pi, before, before2) && Permutes(si, after, after2) && IsMatching(before2, after2, limit, q)
    requires |pi| == |before2| && |si| == |after2| && forall d :: d in q ==> d < |pi| && q[d] < |si|
    requires forall d :: d in q ==> pi[d] in p && p[pi[d]] == si[q[d]]
    requires forall b :: b in p ==> exists d :: d in q && pi[d] == b
    ensures IsMatching(before, after, limit, p)
    ensures forall d :: d in q ==> pi[d] in p && p[pi[d]] == si[q[d]]
    ensures forall c :: 0 <= c < |pi| && c !in q ==> pi[c] !in p
  {
    hide Pair, Permutes;
    PermutesInRange(pi, before, before2);
    PermutesInRange(si, after, after2);
    forall b | b in p
      ensures Pair(before, after, limit, b, p[b])
    {
      var d :| d in q && pi[d] == b;
      PairMoved(before, after, limit, before2, after2, pi, si, d, q[d]);
    }
    forall b, c | b in p && c in p && p[b] == p[c]
      ensures b == c
    {
      var d :| d in q && pi[d] == b;
      var e :| e in q && pi[e] == c;
    }
  }

  lemma InRange(before: seq<Stream>, after: seq<Stream>, limit: int, p: Partners)
    requires IsMatching(before, after, limit, p)
    ensures forall d :: d in p ==> d < |before| && p[d] < |after|
  {
    hide Matches, IsEligible;
    assert forall d :: d in p ==> Pair(before, after, limit, d, p[d]);
  }

  // ---- The order that an obstruction calls for ----

  /** The first n baselines pair with the first n records one by one. */
  ghost predicate PairedUpTo(before: seq<Stream>, after: seq<Stream>, limit: int, n: nat) {
    n <= |before| && n <= |after| && forall k: nat :: k < n ==> Pair(before, after, limit, k, k)
  }

  lemma {:induction false} GroupsGrow(before: seq<Stream>, limit: int, n: nat, id: string)
    requires n <= |before|
    ensures GroupOf(Collected(before[..n], limit), id) <= GroupOf(Collected(before, limit), id)
  {
    hide IsEligible;
    if n == |before| {
      assert before[..n] == before;
    } else {
      GroupsGrow(before[..|before| - 1], limit, n, id);
      assert before[..|before| - 1][..n] == before[..n];
    }
  }

  lemma NextInGroup(before: seq<Stream>, limit: int, n: nat)
    requires n < |before| && IsEligible(before[n], limit)
    ensures var id := before[n].id;
            var from := At(Sizes(Collected(before[..n], limit)), id);
            && id in Collected(before, limit) && from < |Collected(before, limit)[id]| &&
               Collected(before, limit)[id][from] == n
            && Sizes(Collected(before[..n + 1], limit)) == Sizes(Collected(before[..n], limit))[id := from + 1]
  {
    var id := before[n].id;
    assert before[..n + 1][..n] == before[..n];
    GroupsGrow(before, limit, n + 1, id);
    SizesNext(before[..n + 1], limit);
    hide IsEligible;
    var group := GroupOf(Collected(before[..n], limit), id);
    assert GroupOf(Collected(before[..n + 1], limit), id) == group + [n];
    assert (group + [n])[|group|] == n;
  }

  /** Records that pair with the baselines in order are taken in order. */
  lemma {:induction false} TakenInOrder(before: seq<Stream>, after: seq<Stream>, limit: int, n: nat)
    requires PairedUpTo(before, after, limit, n)
    ensures Greedy(before, after[..n], limit) == Groups(Collected(before, limit), Sizes(Collected(before[..n], limit)))
  {
    hide Collected, Matches, Taken;
    if n == 0 {
      NoneCollected(before, limit);
      assert after[..0] == [];
    } else {
      var m := n - 1;
      TakenInOrder(before, after, limit, m);
      assert after[..n][..m] == after[..m];
      assert Pair(before, after, limit, m, m);
      NextInGroup(before, limit, m);
      TakesNext(before, after, limit, m);
    }
  }

  lemma NoneCollected(before: seq<Stream>, limit: int)
    ensures Sizes(Collected(before[..0], limit)) == map[]
  {
    assert before[..0] == [];
  }

  lemma TakesNext(before: seq<Stream>, after: seq<Stream>, limit: int, m: nat)
    requires m < |before| && m < |after| && Pair(before, after, limit, m, m)
    requires var g := Groups(Collected(before, limit), Sizes(Collected(before[..m], limit)));
             Valid(before, g)
    ensures var g := Groups(Collected(before, limit), Sizes(Collected(before[..m], limit)));
            Taken(before, g, after[m], limit) ==
              Groups(Collected(before, limit), Sizes(Collected(before[..m + 1], limit)))
  {
    hide Collected, Matches, Sizes;
    NextInGroup(before, limit, m);
    var id := before[m].id;
    var group, from := Collected(before, limit)[id], At(Sizes(Collected(before[..m], limit)), id);
    assert Swapped(group, from, from) == group;
    assert FirstMatch(before, group, from, after[m].record) == from;
    assert Collected(before, limit)[id := group] == Collected(before, limit);
  }

  // ---- A baseline that no later record pairs with stays free ----

  /** The baseline stands in its group behind the matched ones. */
  ghost predicate Free(before: seq<Stream>, g: Groups, b: nat) {
    b < |before| && before[b].id in g.eligible &&
    exists k: nat :: At(g.preserved, before[b].id) <= k < |g.eligible[before[b].id]| && g.eligible[before[b].id][k] == b
  }

  lemma StaysFree(before: seq<Stream>, limit: int, g: Groups, s: Stream, b: nat)
    requires Valid(before, g) && Free(before, g, b) && IsEligible(before[b], limit)
    requires !(s.id == before[b].id && |s.record.attributes| == limit && Matches(before[b].record, s.record))
    ensures Free(before, Taken(before, g, s, limit), b)
  {
    hide Matches, Swapped;
    var id := before[b].id;
    var r := Taken(before, g, s, limit);
    var k: nat :| At(g.preserved, id) <= k < |g.eligible[id]| && g.eligible[id][k] == b;
    if Ready(g, s, limit) && s.id == id {
      var group, from := g.eligible[id], At(g.preserved, id);
      var i := FirstMatch(before, group, from, s.record);
      if i < |group| {
        SwappedMembers(group, from, i);
        var j := if k == from then i else k;
        assert i != k;
        assert r.eligible[id][j] == b && At(r.preserved, id) <= j;
      }
    } else {
      assert r.eligible[id][k] == b && At(r.preserved, id) <= k;
    }
  }

  lemma {:induction false} FreeToTheEnd(before: seq<Stream>, after: seq<Stream>, limit: int, n: nat, b: nat)
    requires n <= |after| && Free(before, Greedy(before, after[..n], limit), b) && IsEligible(before[b], limit)
    requires forall a: nat :: n <= a < |after| ==> !Pair(before, after, limit, b, a)
    ensures Free(before, Greedy(before, after, limit), b)
    decreases |after|
  {
    hide Taken, Free, Matches;
    if n == |after| {
      assert after[..n] == after;
    } else {
      var m := |after| - 1;
      assert after[..m][..n] == after[..n];
      forall a: nat | n <= a < m
        ensures !Pair(before, after[..m], limit, b, a)
      {
        PairBefore(before, after, limit, b, a);
      }
      FreeToTheEnd(before, after[..m], limit, n, b);
      assert !Pair(before, after, limit, b, m);
      FreeIn(before, Greedy(before, after[..m], limit), b);
      StaysFree(before, limit, Greedy(before, after[..m], limit), after[m], b);
    }
  }

  lemma FreeIn(before: seq<Stream>, g: Groups, b: nat)
    requires Free(before, g, b)
    ensures b < |before|
  {
  }

  /** A free baseline is missing from the result. */
  lemma FreeIsMissing(before: seq<Stream>, after: seq<Stream>, limit: int, b: nat)
    requires Free(before, Greedy(before, after, limit), b) && EligibleAt(before, limit, b)
    ensures Present(before, after, limit) != Expected(before, limit)
  {
    hide Greedy, Collected, HoldsEligible, Total, IsEligible;
    var g := Greedy(before, after, limit);
    var p := GreedyIsMaximalMatching(before, after, limit);
    CompleteIffAllMatched(before, after, limit, p);
    var id := before[b].id;
    var k: nat :| At(g.preserved, id) <= k < |g.eligible[id]| && g.eligible[id][k] == b;
    assert g.eligible[id][k] !in p;
  }

  // ---- In every order ----

  /** The given positions first, then all others. */
  lemma FirstThese(first: seq<nat>, n: nat) returns (pi: seq<nat>)
    requires Ordering.Distinct(first) && forall k: nat :: k in first ==> k < n
    ensures Ordering.Distinct(pi) && (forall k: nat :: k in pi <==> k < n) && first <= pi
  {
    var all := Numbers(n);
    var rest := Listing(set k | k in all && k !in first);
    pi := first + rest;
    forall i, j | 0 <= i < j < |pi|
      ensures pi[i] != pi[j]
    {
      if i < |first| <= j {
        assert pi[i] == first[i] && pi[i] in first && pi[j] == rest[j - |first|] && pi[j] in rest;
      }
    }
  }

  lemma MatchedRecords(before: seq<Stream>, after: seq<Stream>, limit: int, p: Partners, keys: seq<nat>)
    requires IsMatching(before, after, limit, p) && Ordering.Distinct(keys) && forall k :: k in keys <==> k in p
    ensures forall k: nat :: k in keys ==> k < |before|
    ensures var records := Ordering.Images(keys, k => if k in p then p[k] else 0);
            && Ordering.Distinct(records)
            && (forall a: nat :: a in records <==> a in p.Values)
            && (forall a: nat :: a in records ==> a < |after|)
            && (forall i :: 0 <= i < |keys| ==> keys[i] in p && records[i] == p[keys[i]])
  {
    hide Pair;
    InRange(before, after, limit, p);
    var records := Ordering.Images(keys, k => if k in p then p[k] else 0);
    assert forall i :: 0 <= i < |keys| ==> keys[i] in keys;
    forall a: nat
      ensures a in records <==> a in p.Values
      ensures a in records ==> a < |after|
    {
      if a in records {
        var i :| 0 <= i < |records| && records[i] == a;
        assert keys[i] in p && p[keys[i]] == a;
      }
      if a in p.Values {
        var k :| k in p && p[k] == a;
        var i :| 0 <= i < |keys| && keys[i] == k;
        assert records[i] == a;
      }
    }
  }

  lemma PermutesPicked<T>(s: seq<T>, pi: seq<nat>)
    requires Ordering.Distinct(pi) && forall k: nat :: k in pi <==> k < |s|
    ensures multiset(Picked(s, pi)) == multiset(s) && Permutes(pi, s, Picked(s, pi))
  {
    PickedSame(s, pi);
    Ordering.SameSize(Picked(s, pi), s);
  }

  /** Put in the order of its matching, an obstruction keeps its baseline from being found. */
  lemma ObstructionIsIncomplete(before: seq<Stream>, after: seq<Stream>, limit: int, b: nat, p: Partners)
    returns (before2: seq<Stream>, after2: seq<Stream>)
    requires Obstructs(before, after, limit, b, p)
    ensures multiset(before2) == multiset(before) && multiset(after2) == multiset(after)
    ensures Present(before2, after2, limit) != Expected(before2, limit)
  {
    hide Pair, IsEligible, Permutes, Present, Expected, Free;
    var keys := Listing(p.Keys);
    MatchedRecords(before, after, limit, p, keys);
    var records := Ordering.Images(keys, k => if k in p then p[k] else 0);
    var pi := FirstThese(keys, |before|);
    var si := FirstThese(records, |after|);
    before2, after2 := Picked(before, pi), Picked(after, si);
    PermutesPicked(before, pi);
    PermutesPicked(after, si);
    PairedFirst(before, after, limit, before2, after2, pi, si, p, keys, records);
    LeftOutIsMissing(before, after, limit, before2, after2, pi, si, p, keys, records, b);
  }

  lemma PairedFirst(before: seq<Stream>, after: seq<Stream>, limit: int, before2: seq<Stream>, after2: seq<Stream>,
                    pi: seq<nat>, si: seq<nat>, p: Partners, keys: seq<nat>, records: seq<nat>)
    requires Permutes(pi, before, before2) && Permutes(si, after, after2) && IsMatching(before, after, limit, p)
    requires keys <= pi && records <= si && |records| == |keys|
    requires forall i :: 0 <= i < |keys| ==> keys[i] in p && records[i] == p[keys[i]]
    ensures PairedUpTo(before2, after2, limit, |keys|)
  {
    hide Pair, Permutes;
    PermutesInRange(pi, before, before2);
    PermutesInRange(si, after, after2);
    forall k: nat | k < |keys|
      ensures Pair(before2, after2, limit, k, k)
    {
      assert pi[k] == keys[k] && si[k] == records[k];
      PairMoved(before, after, limit, before2, after2, pi, si, k, k);
    }
  }

  lemma LeftOutIsMissing(before: seq<Stream>, after: seq<Stream>, limit: int, before2: seq<Stream>, after2: seq<Stream>,
                         pi: seq<nat>, si: seq<nat>, p: Partners, keys: seq<nat>, records: seq<nat>, b: nat)
    requires Permutes(pi, before, before2) && Permutes(si, after, after2) && Obstructs(before, after, limit, b, p)
    requires keys <= pi && records <= si && |records| == |keys| && PairedUpTo(before2, after2, limit, |keys|)
    requires (forall k :: k in keys <==> k in p) && (forall a: nat :: a in records <==> a in p.Values)
    ensures Present(before2, after2, limit) != Expected(before2, limit)
  {
    hide Pair, IsEligible, Permutes, Present, Expected, Free, Greedy, Collected, PairedUpTo;
    var n := |keys|;
    PermutesInRange(pi, before, before2);
    PermutesInRange(si, after, after2);
    var c := WasAt(pi, before, before2, b);
    assert forall i :: 0 <= i < n ==> pi[i] == keys[i] && keys[i] in p;
    EligibleMovedTo(before, limit, before2, pi, c);
    TakenInOrder(before2, after2, limit, n);
    BehindPaired(before2, limit, n, c);
    forall a: nat | n <= a < |after2|
      ensures !Pair(before2, after2, limit, c, a)
    {
      PairMoved(before, after, limit, before2, after2, pi, si, c, a);
      if si[a] in records {
        var i :| 0 <= i < n && records[i] == si[a];
        assert si[i] == si[a];
      }
    }
    FreeToTheEnd(before2, after2, limit, n, c);
    FreeIsMissing(before2, after2, limit, c);
  }

  lemma EligibleMovedTo(before: seq<Stream>, limit: int, before2: seq<Stream>, pi: seq<nat>, c: nat)
    requires Permutes(pi, before, before2) && c < |pi| && EligibleAt(before, limit, pi[c])
    ensures EligibleAt(before2, limit, c)
  {
    hide IsEligible;
  }

  lemma HeadIsEarlier(before: seq<Stream>, limit: int, n: nat, id: string)
    requires n <= |before|
    ensures var head := GroupOf(Collected(before[..n], limit), id);
            forall m :: 0 <= m < |head| ==> head[m] < n
  {
    hide Collected, IsEligible;
    CollectedHolds(before[..n], limit);
    var head := GroupOf(Collected(before[..n], limit), id);
    forall m | 0 <= m < |head|
      ensures head[m] < n
    {
      assert EligibleAt(before[..n], limit, Collected(before[..n], limit)[id][m]);
    }
  }

  lemma BehindPaired(before: seq<Stream>, limit: int, n: nat, c: nat)
    requires n <= c && EligibleAt(before, limit, c)
    ensures Free(before, Groups(Collected(before, limit), Sizes(Collected(before[..n], limit))), c)
  {
    hide Collected, IsEligible;
    var id := before[c].id;
    CollectedHolds(before, limit);
    GroupsGrow(before, limit, n, id);
    var group := Collected(before, limit)[id];
    var k :| 0 <= k < |group| && group[k] == c;
    var head := GroupOf(Collected(before[..n], limit), id);
    HeadIsEarlier(before, limit, n, id);
    assert forall m :: 0 <= m < |head| ==> group[m] == head[m];
  }

  /** The count is complete in every order of the baselines and of the records exactly when
      nothing obstructs: no matching leaves out an eligible baseline and takes every record
      that this baseline could have had. */
  lemma CompleteInEveryOrderIff(before: seq<Stream>, after: seq<Stream>, limit: int)
    ensures (forall before2, after2 :: multiset(before2) == multiset(before) && multiset(after2) == multiset(after) ==>
               Present(before2, after2, limit) == Expected(before2, limit)) <==>
            !(exists b: nat, p :: Obstructs(before, after, limit, b, p))
  {
    hide Obstructs, Present, Expected;
    if b: nat, p :| Obstructs(before, after, limit, b, p) {
      var before2, after2 := ObstructionIsIncomplete(before, after, limit, b, p);
    } else {
      forall before2, after2 | multiset(before2) == multiset(before) && multiset(after2) == multiset(after)
        ensures Present(before2, after2, limit) == Expected(before2, limit)
      {
        if Present(before2, after2, limit) != Expected(before2, limit) {
          var c, q := IncompleteIsObstructed(before2, after2, limit);
          var pi := PermutationOf(before, before2);
          var si := PermutationOf(after, after2);
          var b, p := ObstructionMovesBack(before, after, limit, before2, after2, pi, si, c, q);
        }
      }
    }
  }
}
