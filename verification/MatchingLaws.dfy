/** The comparison by counts and the matching of limited records in plain terms. */
module MatchingLaws {
  import opened IdentityCounts
  import opened CaptureMatching

  // ---- Counts ----

  /** The collection holds every identity as often as it was counted. */
  ghost predicate Holds(c: Counts, x: multiset<string>) {
    forall id :: x[id] == if id in c then c[id] else 0
  }

  lemma {:induction false} TotalIsSize(c: Counts, x: multiset<string>)
    requires Holds(c, x)
    ensures IdentityCounts.Total(c) == |x|
    decreases |c|
  {
    if c == map[] {
      assert x == multiset{};
    } else {
      var id :| id in c;
      TotalWithout(c, id);
      TotalIsSize(c - {id}, x[id := 0]);
    }
  }

  /** The expected number is the size of the baseline's collection, the matched number that of
      the intersection with the other one. */
  lemma CommonIsIntersection(a: Counts, b: Counts, x: multiset<string>, y: multiset<string>)
    requires Holds(a, x) && Holds(b, y)
    ensures IdentityCounts.Total(a) == |x| && IdentityCounts.Total(Common(a, b)) == |x * y|
  {
    TotalIsSize(a, x);
    TotalIsSize(Common(a, b), x * y);
  }

  /** With positive counts the comparison passes exactly on equal collections. */
  lemma SameIsEqual(a: Counts, b: Counts, x: multiset<string>, y: multiset<string>)
    requires Holds(a, x) && Holds(b, y)
    requires (forall id :: id in a ==> a[id] > 0) && forall id :: id in b ==> b[id] > 0
    ensures SameCounts(a, b) <==> x == y
  {
    SameCountsIsEquality(a, b);
    if SameCounts(a, b) {
      assert forall id :: x[id] == y[id];
    }
    if x == y {
      forall id
        ensures id in a <==> id in b
        ensures id in a ==> a[id] == b[id]
      {
        assert x[id] == y[id];
      }
      assert a == b;
    }
  }

  // ---- Limited records ----

  /** The record of `after` has exactly `limit` of the attributes of the record of `before`,
      each at most as often, and counts the others as dropped on top of those that the
      baseline had dropped already. */
  ghost predicate LimitedForm(before: Stream, after: Stream, limit: int) {
    && before.id != "" && after.id == before.id
    && |before.record.attributes| > limit == |after.record.attributes|
    && after.record.dropped == before.record.dropped + (|before.record.attributes| - limit)
    && forall x :: multiset(after.record.attributes)[x] <= multiset(before.record.attributes)[x]
  }

  lemma PairIff(before: seq<Stream>, after: seq<Stream>, limit: int, b: nat, a: nat)
    ensures Pair(before, after, limit, b, a) <==>
            b < |before| && a < |after| && LimitedForm(before[b], after[a], limit)
  {
    if b < |before| && a < |after| {
      var x, y := multiset(after[a].record.attributes), multiset(before[b].record.attributes);
      assert x <= y <==> forall k :: x[k] <= y[k];
    }
  }

  /** No two baselines share a record, all pairs are limited forms, and no further pair is
      left over. */
  ghost predicate Pairing(before: seq<Stream>, after: seq<Stream>, limit: int, p: Partners) {
    && (forall b :: b in p ==> b < |before| && p[b] < |after| && LimitedForm(before[b], after[p[b]], limit))
    && (forall b, c :: b in p && c in p && p[b] == p[c] ==> b == c)
    && forall b: nat, a: nat :: b < |before| && a < |after| && LimitedForm(before[b], after[a], limit) ==>
      b in p || exists c :: c in p && p[c] == a
  }

  lemma PairingIff(before: seq<Stream>, after: seq<Stream>, limit: int, p: Partners)
    ensures Pairing(before, after, limit, p) <==>
            IsMatching(before, after, limit, p) && IsMaximal(before, after, limit, p)
  {
    hide LimitedForm, Pair;
    forall b: nat, a: nat
      ensures Pair(before, after, limit, b, a) <==>
              b < |before| && a < |after| && LimitedForm(before[b], after[a], limit)
    {
      PairIff(before, after, limit, b, a);
    }
    forall a: nat
      ensures a in p.Values <==> exists c :: c in p && p[c] == a
    {
    }
  }

  /** The first number counts the baselines with a name and more attributes than the limit,
      the second those of them that a maximal pairing matches. */
  lemma NumbersAre(before: seq<Stream>, after: seq<Stream>, limit: int)
    ensures Total(Sizes(Collected(before, limit))) ==
            |set b: nat | b < |before| && before[b].id != "" && |before[b].record.attributes| > limit|
    ensures exists p :: Pairing(before, after, limit, p) && |p| == Total(Greedy(before, after, limit).preserved)
  {
    hide Pairing;
    ExpectedIsEligible(before, limit);
    assert EligibleSet(before, limit) ==
           set b: nat | b < |before| && before[b].id != "" && |before[b].record.attributes| > limit;
    var p := GreedyIsMaximalMatching(before, after, limit);
    PairingIff(before, after, limit, p);
  }
}
