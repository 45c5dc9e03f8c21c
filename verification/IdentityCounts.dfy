/** Comparing captures by how often each identity occurs. */
module IdentityCounts {
  import opened Basics

  type Counts = map<string, nat>

  /** How often the identity was counted. */
  function At(c: Counts, id: string): nat {
    if id in c then c[id] else 0
  }

  ghost function Total(c: Counts): nat
    decreases |c|
  {
    if c == map[] then 0
    else
      var id :| id in c;
      c[id] + Total(c - {id})
  }

  lemma {:induction false} TotalWithout(c: Counts, id: string)
    requires id in c
    ensures Total(c) == c[id] + Total(c - {id})
    decreases |c|
  {
    var other :| other in c && Total(c) == c[other] + Total(c - {other});
    if other != id {
      TotalWithout(c - {other}, id);
      TotalWithout(c - {id}, other);
      assert c - {other} - {id} == c - {id} - {other};
    }
  }

  /** The occurrences that both captures share. */
  function Common(a: Counts, b: Counts): Counts {
    map id | id in a :: if At(b, id) < a[id] then At(b, id) else a[id]
  }

  function Less(m: nat, n: nat): nat {
    if n < m then n else m
  }

  lemma CommonWithout(a: Counts, b: Counts, id: string)
    requires id in a
    ensures Total(Common(a, b)) == Less(a[id], At(b, id)) + Total(Common(a - {id}, b))
  {
    TotalWithout(Common(a, b), id);
    assert Common(a, b) - {id} == Common(a - {id}, b);
  }

  ghost predicate Within(a: Counts, b: Counts) {
    forall id :: id in a ==> a[id] <= At(b, id)
  }

  lemma WithinWithout(a: Counts, b: Counts, id: string)
    requires id in a
    ensures Within(a, b) <==> a[id] <= At(b, id) && Within(a - {id}, b)
  {
    hide At;
    if Within(a - {id}, b) && a[id] <= At(b, id) {
      forall other | other in a
        ensures a[other] <= At(b, other)
      {
        if other != id {
          assert other in a - {id};
        }
      }
    }
  }

  lemma {:induction false} CommonAtMost(a: Counts, b: Counts)
    ensures Total(Common(a, b)) <= Total(a)
    ensures Total(Common(a, b)) == Total(a) <==> Within(a, b)
    decreases |a|
  {
    hide Total, Common, At, Within;
    if a == map[] {
      NothingCommon(b);
    } else {
      var id :| id in a;
      CommonAtMost(a - {id}, b);
      TotalWithout(a, id);
      CommonWithout(a, b, id);
      WithinWithout(a, b, id);
    }
  }

  lemma NothingCommon(b: Counts)
    ensures Total(map[]) == 0 && Total(Common(map[], b)) == 0 && Within(map[], b)
  {
    assert Common(map[], b) == map[];
  }

  /** What the comparison decides: as many identities, each counted as often. */
  ghost predicate SameCounts(a: Counts, b: Counts) {
    |a| == |b| && forall id :: id in a ==> a[id] == At(b, id)
  }

  method CountIdentities(c: Counts) returns (total: nat)
    ensures total == Total(c)
  {
    total := 0;
    var rest := c;
    while rest != map[]
      invariant total + Total(rest) == Total(c)
      decreases |rest|
    {
      var id :| id in rest;
      TotalWithout(rest, id);
      total := total + rest[id];
      rest := rest - {id};
    }
  }

  /** The expected number, and how many were found; a capture that is not an exact match
      is never reported as complete. */
  method MatchingIdentityCounts(eligible: Counts, actual: Counts) returns (expected: nat, present: nat)
    ensures expected == Total(eligible)
    ensures present == expected <==> SameCounts(eligible, actual)
    ensures present == if SameCounts(eligible, actual) || Total(Common(eligible, actual)) < expected
                       then Total(Common(eligible, actual)) else expected + 1
  {
    hide Total, Common, At;
    expected := CountIdentities(eligible);
    var matched, exact := 0, |eligible| == |actual|;
    var rest := eligible;
    while rest != map[]
      invariant Rest(eligible, rest)
      invariant matched + Total(Common(rest, actual)) == Total(Common(eligible, actual))
      invariant exact <==> |eligible| == |actual| && forall id :: id in eligible && id !in rest ==>
                           eligible[id] == At(actual, id)
      decreases |rest|
    {
      var id :| id in rest;
      var count := rest[id];
      CommonWithout(rest, actual, id);
      var actualCount := At(actual, id);
      if actualCount < count {
        matched := matched + actualCount;
      } else {
        matched := matched + count;
      }
      if actualCount != count {
        exact := false;
      }
      rest := rest - {id};
    }
    NothingCommon(actual);
    CommonAtMost(eligible, actual);
    if !exact && matched == expected {
      return expected, expected + 1;
    }
    present := matched;
  }

  // A part of the counts, with the same numbers.
  ghost predicate Rest(all: Counts, rest: Counts) {
    forall id :: id in rest ==> id in all && rest[id] == all[id]
  }

  method SameIdentityCounts(left: Counts, right: Counts) returns (same: bool)
    ensures same <==> SameCounts(left, right)
  {
    if |left| != |right| {
      return false;
    }
    var rest := left;
    while rest != map[]
      invariant forall id :: id in rest ==> id in left && rest[id] == left[id]
      invariant forall id :: id in left && id !in rest ==> left[id] == At(right, id)
      decreases |rest|
    {
      var id :| id in rest;
      if At(right, id) != rest[id] {
        return false;
      }
      rest := rest - {id};
    }
    same := true;
  }

  /** Identities, structure and trace partitions must all agree for a full count. */
  method MatchingWorkloadIdentityCounts(eligible: Counts, actual: Counts, validStructure: bool, before: Counts,
                                        after: Counts)
    returns (expected: nat, present: nat)
    ensures expected == Total(eligible)
    ensures present == expected <==> SameCounts(eligible, actual) && validStructure && SameCounts(before, after)
  {
    expected, present := MatchingIdentityCounts(eligible, actual);
    var same := SameIdentityCounts(before, after);
    if (!validStructure || !same) && present == expected {
      present := expected + 1;
    }
  }

  // ---- What the comparison means ----

  /** Counts that come from counting something are positive. */
  ghost predicate Positive(c: Counts) {
    forall id :: id in c ==> c[id] > 0
  }

  /** On counts that come from counting, the captures compare equal exactly when they are
      the same multiset of identities. */
  lemma SameCountsIsEquality(a: Counts, b: Counts)
    requires Positive(a)
    ensures SameCounts(a, b) <==> a == b
  {
    if SameCounts(a, b) {
      assert forall id :: id in a ==> id in b;
      SubsetOfSameSize(a.Keys, b.Keys);
    }
  }
}
