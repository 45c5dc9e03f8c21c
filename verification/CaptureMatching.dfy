/** Greedy matching of limited log records to their baselines, by swaps in place. */
module CaptureMatching {
  import opened IdentityCounts

  // An attribute stands for its key and normalized value.
  datatype LogRecord = LogRecord(attributes: seq<string>, dropped: int)

  datatype Stream = Stream(id: string, record: LogRecord)

  // ---- When a record is a limited form of a baseline ----

  /** Attribute by attribute, each occurrence in the candidate uses up one in the baseline. */
  method AttributeMultisetSubset(candidate: seq<string>, baseline: seq<string>) returns (subset: bool)
    ensures subset <==> multiset(candidate) <= multiset(baseline)
  {
    var available: map<string, nat> := map[];
    for i := 0 to |baseline|
      invariant Available(available, baseline[..i], [])
    {
      assert baseline[..i + 1] == baseline[..i] + [baseline[i]];
      available := available[baseline[i] := At(available, baseline[i]) + 1];
    }
    assert baseline[..|baseline|] == baseline;
    for i := 0 to |candidate|
      invariant Available(available, baseline, candidate[..i])
    {
      assert candidate[..i + 1] == candidate[..i] + [candidate[i]];
      if At(available, candidate[i]) == 0 {
        MoreThanAvailable(candidate, i, baseline);
        return false;
      }
      available := available[candidate[i] := At(available, candidate[i]) - 1];
    }
    assert candidate[..|candidate|] == candidate;
    subset := true;
  }

  // The counts are what is left of the baseline after the used attributes.
  ghost predicate Available(available: Counts, baseline: seq<string>, used: seq<string>) {
    forall a :: At(available, a) + multiset(used)[a] == multiset(baseline)[a]
  }

  lemma MoreThanAvailable(candidate: seq<string>, i: nat, baseline: seq<string>)
    requires i < |candidate| && multiset(candidate[..i])[candidate[i]] >= multiset(baseline)[candidate[i]]
    ensures !(multiset(candidate) <= multiset(baseline))
  {
    assert candidate == candidate[..i] + [candidate[i]] + candidate[i + 1..];
    assert multiset(candidate)[candidate[i]] > multiset(baseline)[candidate[i]];
  }

  predicate AccurateDrop(baseline: LogRecord, candidate: LogRecord) {
    var removed := |baseline.attributes| - |candidate.attributes|;
    removed > 0 && candidate.dropped == baseline.dropped + removed
  }

  predicate Matches(baseline: LogRecord, candidate: LogRecord) {
    AccurateDrop(baseline, candidate) && multiset(candidate.attributes) <= multiset(baseline.attributes)
  }

  method CheckMatch(baseline: LogRecord, candidate: LogRecord) returns (ok: bool)
    ensures ok <==> Matches(baseline, candidate)
  {
    if !AccurateDrop(baseline, candidate) {
      return false;
    }
    ok := AttributeMultisetSubset(candidate.attributes, baseline.attributes);
  }

  // ---- The groups ----

  // Positions in the baseline by identity, and how many of each group are matched; the
  // matched ones stand first.
  datatype Groups = Groups(eligible: map<string, seq<nat>>, preserved: Counts)

  function GroupOf(eligible: map<string, seq<nat>>, id: string): seq<nat> {
    if id in eligible then eligible[id] else []
  }

  predicate IsEligible(s: Stream, limit: int) {
    s.id != "" && |s.record.attributes| > limit
  }

  function Collected(before: seq<Stream>, limit: int): map<string, seq<nat>> {
    if before == [] then map[]
    else
      var n := |before| - 1;
      var shorter := Collected(before[..n], limit);
      if IsEligible(before[n], limit) then shorter[before[n].id := GroupOf(shorter, before[n].id) + [n]] else shorter
  }

  method Collect(before: seq<Stream>, limit: int) returns (eligible: map<string, seq<nat>>)
    ensures eligible == Collected(before, limit)
  {
    eligible := map[];
    for i := 0 to |before|
      invariant eligible == Collected(before[..i], limit)
    {
      assert before[..i + 1][..i] == before[..i];
      if IsEligible(before[i], limit) {
        eligible := eligible[before[i].id := GroupOf(eligible, before[i].id) + [i]];
      }
    }
    assert before[..|before|] == before;
  }

  ghost predicate Within(group: seq<nat>, n: nat) {
    forall k :: 0 <= k < |group| ==> group[k] < n
  }

  ghost predicate Positions(before: seq<Stream>, eligible: map<string, seq<nat>>) {
    forall id :: id in eligible ==> Within(eligible[id], |before|)
  }

  /** The first position from `from` on whose baseline matches, or the end of the group. */
  function FirstMatch(before: seq<Stream>, group: seq<nat>, from: nat, record: LogRecord): (k: nat)
    requires from <= |group| && Within(group, |before|)
    ensures from <= k <= |group|
    ensures forall i :: from <= i < k ==> !Matches(before[group[i]].record, record)
    ensures k < |group| ==> Matches(before[group[k]].record, record)
    decreases |group| - from
  {
    if from == |group| || Matches(before[group[from]].record, record) then from
    else FirstMatch(before, group, from + 1, record)
  }

  function Swapped(group: seq<nat>, i: nat, j: nat): (r: seq<nat>)
    requires i < |group| && j < |group|
    ensures |r| == |group| && multiset(r) == multiset(group)
  {
    group[i := group[j]][j := group[i]]
  }

  predicate Ready(g: Groups, s: Stream, limit: int) {
    s.id != "" && At(g.preserved, s.id) < |GroupOf(g.eligible, s.id)| && |s.record.attributes| == limit
  }

  ghost predicate Valid(before: seq<Stream>, g: Groups) {
    && Positions(before, g.eligible)
    && (forall id :: id in g.preserved ==> id in g.eligible)
    && (forall id :: id in g.eligible ==> At(g.preserved, id) <= |g.eligible[id]|)
  }

  /** One limited record takes the first free baseline that it matches. */
  ghost function Taken(before: seq<Stream>, g: Groups, s: Stream, limit: int): (r: Groups)
    requires Valid(before, g)
    ensures Valid(before, r)
  {
    if !Ready(g, s, limit) then g
    else
      var group, from := g.eligible[s.id], At(g.preserved, s.id);
      var k := FirstMatch(before, group, from, s.record);
      if k == |group| then g
      else Groups(g.eligible[s.id := Swapped(group, from, k)], g.preserved[s.id := from + 1])
  }

  ghost function Start(before: seq<Stream>, limit: int): (g: Groups)
    ensures Valid(before, g)
  {
    CollectedValid(before, limit);
    Groups(Collected(before, limit), map[])
  }

  ghost function Greedy(before: seq<Stream>, after: seq<Stream>, limit: int): (g: Groups)
    ensures Valid(before, g)
  {
    if after == [] then Start(before, limit)
    else Taken(before, Greedy(before, after[..|after| - 1], limit), after[|after| - 1], limit)
  }

  lemma {:induction false} CollectedValid(before: seq<Stream>, limit: int)
    ensures Valid(before, Groups(Collected(before, limit), map[]))
  {
    if before != [] {
      CollectedValid(before[..|before| - 1], limit);
    }
  }

  function Sizes(eligible: map<string, seq<nat>>): Counts {
    map id | id in eligible :: |eligible[id]|
  }

  method LimitedCountLogStreamRecords(before: seq<Stream>, after: seq<Stream>, limit: int)
    returns (expected: nat, present: nat)
    ensures expected == Total(Sizes(Collected(before, limit)))
    ensures present == Total(Greedy(before, after, limit).preserved)
  {
    hide Collected, Taken, Valid, Sizes;
    var g := Groups(map[], map[]);
    var eligible := Collect(before, limit);
    g := Groups(eligible, map[]);
    for i := 0 to |after|
      invariant g == Greedy(before, after[..i], limit) && Valid(before, g)
      invariant Sizes(g.eligible) == Sizes(Collected(before, limit))
    {
      assert after[..i + 1][..i] == after[..i];
      TakenKeepsSizes(before, g, after[i], limit);
      g := TakeOne(before, g, after[i], limit);
    }
    assert after[..|after|] == after;
    expected := CountIdentities(Sizes(g.eligible));
    present := CountIdentities(g.preserved);
  }

  method TakeOne(before: seq<Stream>, g: Groups, s: Stream, limit: int) returns (r: Groups)
    requires Valid(before, g)
    ensures r == Taken(before, g, s, limit)
  {
    hide Matches;
    r := g;
    if Ready(g, s, limit) {
      var group, from := g.eligible[s.id], At(g.preserved, s.id);
      var k := Search(before, group, from, s.record);
      if k < |group| {
        r := Groups(g.eligible[s.id := Swapped(group, from, k)], g.preserved[s.id := from + 1]);
      }
    }
  }

  lemma TakenKeepsSizes(before: seq<Stream>, g: Groups, s: Stream, limit: int)
    requires Valid(before, g)
    ensures Sizes(Taken(before, g, s, limit).eligible) == Sizes(g.eligible)
  {
    hide Matches;
  }

  method Search(before: seq<Stream>, group: seq<nat>, from: nat, record: LogRecord) returns (k: nat)
    requires from <= |group| && Within(group, |before|)
    ensures k == FirstMatch(before, group, from, record)
  {
    k := from;
    while k < |group|
      invariant from <= k <= |group| && FirstMatch(before, group, from, record) == FirstMatch(before, group, k, record)
    {
      var ok := CheckMatch(before[group[k]].record, record);
      if ok {
        return;
      }
      k := k + 1;
    }
  }

  // ---- What the greedy matching is ----

  /** Every group stays a permutation of itself. */
  lemma {:induction false} GroupsStayPermutations(before: seq<Stream>, after: seq<Stream>, limit: int)
    ensures var g := Greedy(before, after, limit);
            && g.eligible.Keys == Collected(before, limit).Keys
            && forall id :: id in g.eligible ==> multiset(g.eligible[id]) == multiset(Collected(before, limit)[id])
  {
    hide Collected, Matches;
    if after != [] {
      GroupsStayPermutations(before, after[..|after| - 1], limit);
    }
  }

  /** The baseline positions, each with the after record that it is matched to. */
  type Partners = map<nat, nat>

  ghost predicate Pair(before: seq<Stream>, after: seq<Stream>, limit: int, b: nat, a: nat) {
    && b < |before| && a < |after| && IsEligible(before[b], limit)
    && after[a].id == before[b].id && |after[a].record.attributes| == limit
    && Matches(before[b].record, after[a].record)
  }

  ghost predicate IsMatching(before: seq<Stream>, after: seq<Stream>, limit: int, p: Partners) {
    && (forall b :: b in p ==> Pair(before, after, limit, b, p[b]))
    && (forall b, c :: b in p && c in p && p[b] == p[c] ==> b == c)
  }

  /** No pair of an unmatched baseline and an unmatched record could be added. */
  ghost predicate IsMaximal(before: seq<Stream>, after: seq<Stream>, limit: int, p: Partners) {
    forall b: nat, a: nat {:trigger Pair(before, after, limit, b, a)} :: Pair(before, after, limit, b, a) ==>
      b in p || a in p.Values
  }

  ghost predicate EligibleAt(before: seq<Stream>, limit: int, b: nat) {
    b < |before| && IsEligible(before[b], limit)
  }

  // The groups hold the eligible baselines, each once and under its identity.
  ghost predicate HoldsEligible(before: seq<Stream>, limit: int, eligible: map<string, seq<nat>>) {
    && (forall b: nat {:trigger EligibleAt(before, limit, b)} :: EligibleAt(before, limit, b) ==>
          before[b].id in eligible && b in eligible[before[b].id])
    && (forall id, k {:trigger eligible[id][k]} :: id in eligible && 0 <= k < |eligible[id]| ==>
          EligibleAt(before, limit, eligible[id][k]) && before[eligible[id][k]].id == id)
    && (forall id, j, k {:trigger eligible[id][j], eligible[id][k]} :: id in eligible && 0 <= j < k < |eligible[id]| ==>
          eligible[id][j] != eligible[id][k])
  }

  // The matched part of every group is what the partners hold.
  ghost predicate Heads(g: Groups, p: Partners) {
    forall id, k {:trigger g.eligible[id][k]} :: id in g.eligible && 0 <= k < |g.eligible[id]| ==>
      (g.eligible[id][k] in p <==> k < At(g.preserved, id))
  }

  lemma {:induction false} CollectedHolds(before: seq<Stream>, limit: int)
    ensures HoldsEligible(before, limit, Collected(before, limit))
  {
    hide IsEligible;
    if before != [] {
      var n := |before| - 1;
      CollectedHolds(before[..n], limit);
      var shorter, longer := Collected(before[..n], limit), Collected(before, limit);
      forall b: nat | EligibleAt(before, limit, b)
        ensures before[b].id in longer && b in longer[before[b].id]
      {
        if b < n {
          assert EligibleAt(before[..n], limit, b);
        }
      }
      forall id, k | id in longer && 0 <= k < |longer[id]|
        ensures EligibleAt(before, limit, longer[id][k]) && before[longer[id][k]].id == id
      {
        if id in shorter && k < |shorter[id]| {
          assert EligibleAt(before[..n], limit, shorter[id][k]);
        }
      }
    }
  }

  lemma SwappedMembers(group: seq<nat>, i: nat, j: nat)
    requires i < |group| && j < |group|
    ensures forall b :: b in group ==> b in Swapped(group, i, j)
    ensures forall k :: 0 <= k < |group| ==>
              Swapped(group, i, j)[k] == group[if k == i then j else if k == j then i else k]
  {
    assert forall b :: b in group ==> b in multiset(group);
  }

  lemma SwapHolds(before: seq<Stream>, limit: int, eligible: map<string, seq<nat>>, id: string, i: nat, j: nat)
    requires HoldsEligible(before, limit, eligible) && id in eligible && i < |eligible[id]| && j < |eligible[id]|
    ensures HoldsEligible(before, limit, eligible[id := Swapped(eligible[id], i, j)])
  {
    hide EligibleAt, Swapped;
    var group := eligible[id];
    var r := eligible[id := Swapped(group, i, j)];
    SwappedMembers(group, i, j);
    forall b: nat | EligibleAt(before, limit, b)
      ensures b < |before| && before[b].id in r && b in r[before[b].id]
    {
      EligibleInRange(before, limit, b);
    }
    forall other, k | other in r && 0 <= k < |r[other]|
      ensures EligibleAt(before, limit, r[other][k]) && r[other][k] < |before| && before[r[other][k]].id == other
    {
      var m := if other != id then k else if k == i then j else if k == j then i else k;
      assert r[other][k] == eligible[other][m];
      EligibleInRange(before, limit, eligible[other][m]);
    }
    forall other, k, l | other in r && 0 <= k < l < |r[other]|
      ensures r[other][k] != r[other][l]
    {
      var m := if other != id then k else if k == i then j else if k == j then i else k;
      var n := if other != id then l else if l == i then j else if l == j then i else l;
      assert r[other][k] == eligible[other][m] && r[other][l] == eligible[other][n] && m != n;
    }
  }

  lemma EligibleInRange(before: seq<Stream>, limit: int, b: nat)
    requires EligibleAt(before, limit, b)
    ensures b < |before|
  {
  }

  lemma TakenHolds(before: seq<Stream>, limit: int, g: Groups, s: Stream)
    requires Valid(before, g) && HoldsEligible(before, limit, g.eligible)
    ensures HoldsEligible(before, limit, Taken(before, g, s, limit).eligible)
  {
    hide Matches, HoldsEligible, Swapped;
    if Ready(g, s, limit) {
      var group, from := g.eligible[s.id], At(g.preserved, s.id);
      var k := FirstMatch(before, group, from, s.record);
      if k < |group| {
        SwapHolds(before, limit, g.eligible, s.id, from, k);
      }
    }
  }

  // ---- One more record ----

  lemma PairBefore(before: seq<Stream>, after: seq<Stream>, limit: int, b: nat, a: nat)
    requires after != [] && a < |after| - 1
    ensures Pair(before, after, limit, b, a) <==> Pair(before, after[..|after| - 1], limit, b, a)
  {
  }

  /** A record that finds no free baseline leaves the matching maximal. */
  lemma NotTaken(before: seq<Stream>, after: seq<Stream>, limit: int, g: Groups, p: Partners, b: nat)
    requires after != [] && Valid(before, g) && HoldsEligible(before, limit, g.eligible) && Heads(g, p)
    requires Taken(before, g, after[|after| - 1], limit) == g && Pair(before, after, limit, b, |after| - 1)
    ensures b in p
  {
    hide Matches;
    var s := after[|after| - 1];
    assert EligibleAt(before, limit, b);
    var group := g.eligible[s.id];
    var i :| 0 <= i < |group| && group[i] == b;
    if Ready(g, s, limit) {
      TakenWhenFound(before, g, s, limit);
    }
    assert group[i] in p <==> i < At(g.preserved, s.id);
  }

  lemma TakenWhenFound(before: seq<Stream>, g: Groups, s: Stream, limit: int)
    requires Valid(before, g) && Ready(g, s, limit)
    ensures var group := g.eligible[s.id];
            FirstMatch(before, group, At(g.preserved, s.id), s.record) < |group| ==> Taken(before, g, s, limit) != g
  {
    hide FirstMatch;
    var group, from := g.eligible[s.id], At(g.preserved, s.id);
    var k := FirstMatch(before, group, from, s.record);
    if k < |group| {
      NoChange(g, s.id, from, Swapped(group, from, k));
    }
  }

  lemma NoChange(g: Groups, id: string, from: nat, group: seq<nat>)
    requires from == At(g.preserved, id)
    ensures Groups(g.eligible[id := group], g.preserved[id := from + 1]) != g
  {
    assert g.preserved[id := from + 1][id] == from + 1;
  }

  lemma NewPartner(before: seq<Stream>, after: seq<Stream>, limit: int, g: Groups, p: Partners) returns (b: nat)
    requires after != [] && Valid(before, g) && HoldsEligible(before, limit, g.eligible) && Heads(g, p)
    requires Taken(before, g, after[|after| - 1], limit) != g
    ensures b !in p && Pair(before, after, limit, b, |after| - 1)
    ensures Heads(Taken(before, g, after[|after| - 1], limit), p[b := |after| - 1])
    ensures Total(Taken(before, g, after[|after| - 1], limit).preserved) == Total(g.preserved) + 1
  {
    hide Matches, Total;
    var s := after[|after| - 1];
    var group, from := g.eligible[s.id], At(g.preserved, s.id);
    var k := FirstMatch(before, group, from, s.record);
    b := group[k];
    assert EligibleAt(before, limit, g.eligible[s.id][k]);
    assert b !in p;
    var r := Taken(before, g, s, limit);
    HeadsNext(before, limit, g, p, s.id, k, |after| - 1);
    OneMore(g.preserved, s.id);
  }

  lemma OneMore(c: Counts, id: string)
    ensures Total(c[id := At(c, id) + 1]) == Total(c) + 1
  {
    hide Total;
    var more := c[id := At(c, id) + 1];
    TotalWithout(more, id);
    if id in c {
      TotalWithout(c, id);
      assert more - {id} == c - {id};
    } else {
      assert more - {id} == c;
    }
  }

  lemma HeadsNext(before: seq<Stream>, limit: int, g: Groups, p: Partners, id: string, k: nat, a: nat)
    requires HoldsEligible(before, limit, g.eligible) && Heads(g, p)
    requires id in g.eligible && At(g.preserved, id) <= k < |g.eligible[id]|
    ensures var from, group := At(g.preserved, id), g.eligible[id];
            Heads(Groups(g.eligible[id := Swapped(group, from, k)], g.preserved[id := from + 1]), p[group[k] := a])
  {
    var from, group := At(g.preserved, id), g.eligible[id];
    var r, q := Groups(g.eligible[id := Swapped(group, from, k)], g.preserved[id := from + 1]), p[group[k] := a];
    forall other, i | other in r.eligible && 0 <= i < |r.eligible[other]|
      ensures r.eligible[other][i] in q <==> i < At(r.preserved, other)
    {
      if other == id {
        var j := if i == from then k else if i == k then from else i;
        assert r.eligible[other][i] == g.eligible[id][j];
        assert j != k ==> g.eligible[id][j] != g.eligible[id][k];
      } else {
        assert EligibleAt(before, limit, g.eligible[other][i]) && EligibleAt(before, limit, g.eligible[id][k]);
        assert before[g.eligible[other][i]].id == other && before[g.eligible[id][k]].id == id;
      }
    }
  }

  /** The greedy pass pairs baselines and records one to one, each pair an exact drop; the
      reported number counts the pairs, and no pair could be added. */
  lemma {:induction false} GreedyIsMaximalMatching(before: seq<Stream>, after: seq<Stream>, limit: int)
    returns (p: Partners)
    ensures IsMatching(before, after, limit, p) && IsMaximal(before, after, limit, p)
    ensures |p| == Total(Greedy(before, after, limit).preserved)
    ensures Heads(Greedy(before, after, limit), p) &&
            HoldsEligible(before, limit, Greedy(before, after, limit).eligible)
  {
    hide Collected, Taken, Heads, HoldsEligible, Valid, Pair;
    if after == [] {
      CollectedHolds(before, limit);
      p := map[];
      NothingMatched(before, limit);
    } else {
      var n := |after| - 1;
      var shorter := GreedyIsMaximalMatching(before, after[..n], limit);
      var g := Greedy(before, after[..n], limit);
      TakenHolds(before, limit, g, after[n]);
      if Taken(before, g, after[n], limit) == g {
        p := shorter;
        StaysMaximal(before, after, limit, g, p);
      } else {
        var b := NewPartner(before, after, limit, g, shorter);
        p := shorter[b := n];
        GrowsMaximal(before, after, limit, shorter, b);
      }
    }
  }

  lemma NothingMatched(before: seq<Stream>, limit: int)
    ensures Heads(Groups(Collected(before, limit), map[]), map[])
    ensures forall b: nat, a: nat {:trigger Pair(before, [], limit, b, a)} :: !Pair(before, [], limit, b, a)
  {
  }

  lemma StaysMaximal(before: seq<Stream>, after: seq<Stream>, limit: int, g: Groups, p: Partners)
    requires after != [] && Valid(before, g) && HoldsEligible(before, limit, g.eligible) && Heads(g, p)
    requires Taken(before, g, after[|after| - 1], limit) == g
    requires var init := after[..|after| - 1]; IsMatching(before, init, limit, p) && IsMaximal(before, init, limit, p)
    ensures IsMatching(before, after, limit, p) && IsMaximal(before, after, limit, p)
  {
    hide Pair, HoldsEligible, Heads, Valid, Taken;
    var n := |after| - 1;
    PairsLift(before, after, limit, p);
    forall b: nat, a: nat | Pair(before, after, limit, b, a)
      ensures b in p || a in p.Values
    {
      if a < n {
        PairBefore(before, after, limit, b, a);
      } else {
        PairBound(before, after, limit, b, a);
        NotTaken(before, after, limit, g, p, b);
      }
    }
  }

  lemma PairBound(before: seq<Stream>, after: seq<Stream>, limit: int, b: nat, a: nat)
    requires Pair(before, after, limit, b, a)
    ensures a < |after|
  {
  }

  lemma PairsLift(before: seq<Stream>, after: seq<Stream>, limit: int, p: Partners)
    requires after != [] && IsMatching(before, after[..|after| - 1], limit, p)
    ensures forall b :: b in p ==> Pair(before, after, limit, b, p[b]) && p[b] < |after| - 1
  {
    hide Pair;
    forall b | b in p
      ensures Pair(before, after, limit, b, p[b]) && p[b] < |after| - 1
    {
      PairBound(before, after[..|after| - 1], limit, b, p[b]);
      PairBefore(before, after, limit, b, p[b]);
    }
  }

  lemma GrowsMaximal(before: seq<Stream>, after: seq<Stream>, limit: int, p: Partners, b: nat)
    requires after != [] && b !in p && Pair(before, after, limit, b, |after| - 1)
    requires var init := after[..|after| - 1]; IsMatching(before, init, limit, p) && IsMaximal(before, init, limit, p)
    ensures var q := p[b := |after| - 1];
            IsMatching(before, after, limit, q) && IsMaximal(before, after, limit, q) && |q| == |p| + 1
  {
    hide Pair;
    var n := |after| - 1;
    var q := p[b := n];
    PairsLift(before, after, limit, p);
    assert q.Keys == p.Keys + {b};
    StillMatching(before, after, limit, p, b);
    forall c: nat, a: nat | Pair(before, after, limit, c, a)
      ensures c in q || a in q.Values
    {
      if a < n {
        PairBefore(before, after, limit, c, a);
        if c !in p {
          ValueKept(p, b, n, a);
        }
      } else {
        PairBound(before, after, limit, c, a);
        assert q[b] == n;
      }
    }
  }

  lemma ValueKept(p: Partners, b: nat, n: nat, a: nat)
    requires b !in p && a in p.Values
    ensures a in p[b := n].Values
  {
    var d :| d in p && p[d] == a;
    assert p[b := n][d] == a;
  }

  lemma StillMatching(before: seq<Stream>, after: seq<Stream>, limit: int, p: Partners, b: nat)
    requires after != [] && b !in p && Pair(before, after, limit, b, |after| - 1)
    requires IsMatching(before, after[..|after| - 1], limit, p)
    ensures IsMatching(before, after, limit, p[b := |after| - 1])
  {
    hide Pair;
    PairsLift(before, after, limit, p);
  }

  // ---- What the two numbers mean ----

  ghost function EligibleSet(before: seq<Stream>, limit: int): set<nat> {
    set b: nat | b < |before| && IsEligible(before[b], limit)
  }

  /** The expected number is the number of eligible baselines. */
  lemma {:induction false} ExpectedIsEligible(before: seq<Stream>, limit: int)
    ensures Total(Sizes(Collected(before, limit))) == |EligibleSet(before, limit)|
  {
    hide Collected, EligibleSet, Sizes, Total, IsEligible;
    NothingEligible(limit);
    if before != [] {
      var n := |before| - 1;
      ExpectedIsEligible(before[..n], limit);
      EligibleNext(before, limit);
      SizesNext(before, limit);
      if IsEligible(before[n], limit) {
        OneMore(Sizes(Collected(before[..n], limit)), before[n].id);
      }
    }
  }

  lemma NothingEligible(limit: int)
    ensures Total(Sizes(Collected([], limit))) == 0 && EligibleSet([], limit) == {}
  {
    assert Sizes(map[]) == map[];
  }

  lemma EligibleNext(before: seq<Stream>, limit: int)
    requires before != []
    ensures var n := |before| - 1;
            |EligibleSet(before, limit)| ==
            |EligibleSet(before[..n], limit)| + if IsEligible(before[n], limit) then 1 else 0
  {
    hide IsEligible;
    var n := |before| - 1;
    var all, shorter := EligibleSet(before, limit), EligibleSet(before[..n], limit);
    assert n !in shorter;
    assert all == if IsEligible(before[n], limit) then shorter + {n} else shorter;
  }

  lemma SizesNext(before: seq<Stream>, limit: int)
    requires before != []
    ensures var n := |before| - 1;
            var sizes := Sizes(Collected(before[..n], limit));
            Sizes(Collected(before, limit)) ==
            if IsEligible(before[n], limit) then sizes[before[n].id := At(sizes, before[n].id) + 1] else sizes
  {
    hide IsEligible;
  }

  /** The two numbers agree exactly when every eligible baseline found its record. */
  lemma CompleteIffAllMatched(before: seq<Stream>, after: seq<Stream>, limit: int, p: Partners)
    requires IsMatching(before, after, limit, p)
    ensures |p| <= Total(Sizes(Collected(before, limit)))
    ensures |p| == Total(Sizes(Collected(before, limit))) <==> forall b: nat :: EligibleAt(before, limit, b) ==> b in p
  {
    var all := EligibleSet(before, limit);
    ExpectedIsEligible(before, limit);
    forall b | b in p
      ensures b in all
    {
      assert Pair(before, after, limit, b, p[b]);
    }
    assert p.Keys <= all;
    assert |all - p.Keys| == |all| - |p.Keys|;
    if |p| == |all| {
      forall b: nat | EligibleAt(before, limit, b)
        ensures b in p
      {
        assert b in all;
        assert all - p.Keys == {};
      }
    } else {
      var b :| b in all - p.Keys;
      assert EligibleAt(before, limit, b);
    }
  }

  lemma {:induction false} InjectiveImage(keys: set<nat>, f: map<nat, nat>, values: set<nat>)
    requires forall k :: k in keys ==> k in f && f[k] in values
    requires forall k, l :: k in keys && l in keys && f[k] == f[l] ==> k == l
    ensures |keys| <= |values|
    decreases |keys|
  {
    if keys != {} {
      var k :| k in keys;
      InjectiveImage(keys - {k}, f, values - {f[k]});
    }
  }

  lemma {:induction false} ValuesAtMost(p: Partners)
    ensures |p.Values| <= |p|
    decreases |p|
  {
    if p == map[] {
      assert p.Values == {};
    } else {
      var b :| b in p;
      var rest := p - {b};
      ValuesAtMost(rest);
      forall v | v in p.Values
        ensures v in rest.Values + {p[b]}
      {
        var c :| c in p && p[c] == v;
        if c != b {
          assert rest[c] == v;
        }
      }
      assert p.Values <= rest.Values + {p[b]};
      SubsetSize(p.Values, rest.Values + {p[b]});
    }
  }

  lemma SubsetSize(a: set<nat>, b: set<nat>)
    requires a <= b
    ensures |a| <= |b|
  {
    assert |b - a| == |b| - |a|;
  }

  /** No matching has more than twice as many pairs as the greedy one. */
  lemma GreedyAtLeastHalf(before: seq<Stream>, after: seq<Stream>, limit: int, p: Partners, q: Partners)
    requires IsMaximal(before, after, limit, p) && IsMatching(before, after, limit, q)
    ensures |q| <= 2 * |p|
  {
    hide Pair;
    var shared := q.Keys * p.Keys;
    var others := q.Keys - p.Keys;
    forall b | b in others
      ensures q[b] in p.Values
    {
      assert Pair(before, after, limit, b, q[b]);
    }
    InjectiveImage(others, q, p.Values);
    ValuesAtMost(p);
    SubsetSize(shared, p.Keys);
    assert q.Keys == shared + others;
    assert |q| == |q.Keys| == |shared| + |others|;
  }

  // ---- The order matters ----

  const WIDE := Stream("r", LogRecord(["x", "y"], 0))
  const NARROW := Stream("r", LogRecord(["x", "z"], 0))
  const KEPT_X := Stream("r", LogRecord(["x"], 1))
  const KEPT_Y := Stream("r", LogRecord(["y"], 1))

  lemma WhoMatches()
    ensures Matches(WIDE.record, KEPT_X.record) && Matches(WIDE.record, KEPT_Y.record)
    ensures Matches(NARROW.record, KEPT_X.record) && !Matches(NARROW.record, KEPT_Y.record)
  {
    assert multiset(["x", "y"])["x"] == 1 && multiset(["x", "y"])["y"] == 1;
    assert multiset(["x", "z"])["x"] == 1 && multiset(["x", "z"])["y"] == 0;
  }

  lemma TwoCollected(a: Stream, b: Stream)
    requires IsEligible(a, 1) && IsEligible(b, 1) && a.id == b.id
    ensures Collected([a, b], 1) == map[a.id := [0, 1]]
  {
    hide IsEligible;
    assert [a, b][..1] == [a] && [a][..0] == [];
    var none: seq<nat> := [];
    assert none + [0] == [0];
    var one: seq<nat> := [0];
    assert one + [1] == [0, 1];
    assert Collected([], 1) == map[];
    assert Collected([a], 1) == map[][a.id := none + [0]];
    assert Collected([a, b], 1) == map[a.id := one][b.id := one + [1]];
  }

  lemma GreedyOfTwo(before: seq<Stream>, x: Stream, y: Stream)
    ensures Greedy(before, [x, y], 1) ==
            Taken(before, Taken(before, Start(before, 1), x, 1), y, 1)
  {
    hide Taken, Start, Valid;
    assert [x, y][..1] == [x] && [x][..0] == [];
    assert Greedy(before, [], 1) == Start(before, 1);
    assert Greedy(before, [x], 1) == Taken(before, Greedy(before, [], 1), x, 1);
  }

  /** The same baselines in two orders: one order finds both records, the other only one,
      so the greedy number depends on the order and can miss the largest matching. */
  lemma GreedyDependsOnOrder()
    ensures Total(Greedy([NARROW, WIDE], [KEPT_X, KEPT_Y], 1).preserved) == 2
    ensures Total(Greedy([WIDE, NARROW], [KEPT_X, KEPT_Y], 1).preserved) == 1
  {
    hide Matches, Collected, Greedy;
    WhoMatches();
    TwoCollected(NARROW, WIDE);
    TwoCollected(WIDE, NARROW);
    GreedyOfTwo([NARROW, WIDE], KEPT_X, KEPT_Y);
    GreedyOfTwo([WIDE, NARROW], KEPT_X, KEPT_Y);
    var start := Groups(map["r" := [0, 1]], map[]);
    TakesFirst([NARROW, WIDE], start, KEPT_X);
    TakesFirst([WIDE, NARROW], start, KEPT_X);
    var one := Groups(map["r" := [0, 1]], map["r" := 1]);
    TakesSecond([NARROW, WIDE], one, KEPT_Y);
    TakesNone([WIDE, NARROW], one, KEPT_Y);
    OneMore(map[], "r");
    OneMore(map["r" := 1], "r");
    assert map["r" := 1]["r" := 2] == map["r" := 2];
  }

  lemma TakesFirst(before: seq<Stream>, g: Groups, s: Stream)
    requires |before| == 2 && g == Groups(map["r" := [0, 1]], map[]) && s.id == "r" && |s.record.attributes| == 1
    requires Matches(before[0].record, s.record)
    ensures Taken(before, g, s, 1) == Groups(map["r" := [0, 1]], map["r" := 1])
  {
    hide Matches;
    assert FirstMatch(before, [0, 1], 0, s.record) == 0;
    assert Swapped([0, 1], 0, 0) == [0, 1];
  }

  lemma TakesSecond(before: seq<Stream>, g: Groups, s: Stream)
    requires |before| == 2 && g == Groups(map["r" := [0, 1]], map["r" := 1]) && s.id == "r" &&
             |s.record.attributes| == 1
    requires Matches(before[1].record, s.record)
    ensures Taken(before, g, s, 1) == Groups(map["r" := [0, 1]], map["r" := 2])
  {
    hide Matches;
    assert FirstMatch(before, [0, 1], 1, s.record) == 1;
    assert Swapped([0, 1], 1, 1) == [0, 1];
  }

  lemma TakesNone(before: seq<Stream>, g: Groups, s: Stream)
    requires |before| == 2 && g == Groups(map["r" := [0, 1]], map["r" := 1]) && s.id == "r" &&
             |s.record.attributes| == 1
    requires !Matches(before[1].record, s.record)
    ensures Taken(before, g, s, 1) == g
  {
    hide Matches;
    assert FirstMatch(before, [0, 1], 1, s.record) == 2;
  }
}
