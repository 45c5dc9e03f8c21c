/** Ordered keys, stable sorting by a text key, and grouping of equal neighbours. */
module Ordering {
  import opened Basics

  // ---- Text order ----

  /** The lexicographic order of two texts. */
  predicate AtMost(a: string, b: string) {
    if a == [] then true
    else if b == [] then false
    else if a[0] == b[0] then AtMost(a[1..], b[1..])
    else a[0] < b[0]
  }

  lemma {:induction false} Total(a: string, b: string)
    ensures AtMost(a, b) || AtMost(b, a)
  {
    if a != [] && b != [] && a[0] == b[0] {
      Total(a[1..], b[1..]);
    }
  }

  lemma {:induction false} Antisymmetric(a: string, b: string)
    requires AtMost(a, b) && AtMost(b, a)
    ensures a == b
  {
    if a != [] && b != [] {
      Antisymmetric(a[1..], b[1..]);
      assert a == [a[0]] + a[1..] && b == [b[0]] + b[1..];
    }
  }

  lemma {:induction false} Transitive(a: string, b: string, c: string)
    requires AtMost(a, b) && AtMost(b, c)
    ensures AtMost(a, c)
  {
    if a != [] && b != [] && c != [] && a[0] == b[0] == c[0] {
      Transitive(a[1..], b[1..], c[1..]);
    }
  }

  // ---- The keys of an ordered map ----

  predicate Least(s: set<string>, k: string) {
    k in s && forall j :: j in s ==> AtMost(k, j)
  }

  lemma {:induction false} LeastExists(s: set<string>)
    requires s != {}
    ensures exists k :: Least(s, k)
    decreases |s|
  {
    var x :| x in s;
    Total(x, x);
    if s - {x} == {} {
      assert s == {x};
      assert Least(s, x);
    } else {
      LeastExists(s - {x});
      var k :| Least(s - {x}, k);
      Total(x, k);
      if AtMost(k, x) {
        assert Least(s, k);
      } else {
        forall j | j in s
          ensures AtMost(x, j)
        {
          if j != x {
            Transitive(x, k, j);
          }
        }
        assert Least(s, x);
      }
    }
  }

  lemma LeastUnique(s: set<string>)
    ensures forall k, l :: Least(s, k) && Least(s, l) ==> k == l
  {
    forall k, l | Least(s, k) && Least(s, l)
      ensures k == l
    {
      Antisymmetric(k, l);
    }
  }

  predicate Distinct<T(==)>(s: seq<T>) {
    forall i, j :: 0 <= i < j < |s| ==> s[i] != s[j]
  }

  /** The keys in the order in which an ordered map visits them. */
  function SortedKeys(s: set<string>): (keys: seq<string>)
    ensures Distinct(keys) && |keys| == |s|
    ensures forall k :: k in keys <==> k in s
    decreases |s|
  {
    if s == {} then []
    else
      LeastExists(s);
      LeastUnique(s);
      var k :| Least(s, k);
      [k] + SortedKeys(s - {k})
  }

  function Same(k: string): string {
    k
  }

  lemma {:induction false} SortedKeysAscend(s: set<string>)
    ensures Ascending(SortedKeys(s), Same)
    decreases |s|
  {
    if s != {} {
      var keys := SortedKeys(s);
      var rest := keys[1..];
      LeastExists(s);
      LeastUnique(s);
      assert Least(s, keys[0]) && rest == SortedKeys(s - {keys[0]});
      SortedKeysAscend(s - {keys[0]});
      forall i, j | 0 <= i < j < |keys|
        ensures AtMost(keys[i], keys[j])
      {
        assert keys[j] == rest[j - 1] && keys[j] in rest;
        if i > 0 {
          assert AtMost(Same(rest[i - 1]), Same(rest[j - 1]));
        }
      }
    }
  }

  // ---- Sorting ----

  predicate Ascending<T>(s: seq<T>, key: T -> string) {
    forall i, j :: 0 <= i < j < |s| ==> AtMost(key(s[i]), key(s[j]))
  }

  function Insert<T>(s: seq<T>, x: T, key: T -> string): (r: seq<T>)
    requires Ascending(s, key)
    ensures Ascending(r, key) && multiset(r) == multiset(s) + multiset{x}
  {
    if s == [] then [x]
    else if AtMost(key(s[|s| - 1]), key(x)) then
      AppendKeepsOrder(s, x, key);
      s + [x]
    else
      var init := Insert(s[..|s| - 1], x, key);
      InsertKeepsLast(s, x, key, init);
      init + [s[|s| - 1]]
  }

  lemma AppendKeepsOrder<T>(s: seq<T>, x: T, key: T -> string)
    requires Ascending(s, key) && s != [] && AtMost(key(s[|s| - 1]), key(x))
    ensures Ascending(s + [x], key)
  {
    forall i | 0 <= i < |s|
      ensures AtMost(key(s[i]), key(x))
    {
      if i < |s| - 1 {
        Transitive(key(s[i]), key(s[|s| - 1]), key(x));
      }
    }
  }

  lemma InsertKeepsLast<T>(s: seq<T>, x: T, key: T -> string, init: seq<T>)
    requires Ascending(s, key) && s != [] && !AtMost(key(s[|s| - 1]), key(x))
    requires Ascending(init, key) && multiset(init) == multiset(s[..|s| - 1]) + multiset{x}
    ensures Ascending(init + [s[|s| - 1]], key)
    ensures multiset(init + [s[|s| - 1]]) == multiset(s) + multiset{x}
  {
    var last := s[|s| - 1];
    assert s == s[..|s| - 1] + [last];
    Total(key(x), key(last));
    forall i | 0 <= i < |init|
      ensures AtMost(key(init[i]), key(last))
    {
      assert init[i] in multiset(init);
      assert init[i] == x || init[i] in s[..|s| - 1];
    }
  }

  /** A stable sort. */
  function SortBy<T>(s: seq<T>, key: T -> string): (r: seq<T>)
    ensures Ascending(r, key) && multiset(r) == multiset(s) && |r| == |s|
  {
    if s == [] then []
    else
      assert s == s[..|s| - 1] + [s[|s| - 1]];
      var r := Insert(SortBy(s[..|s| - 1], key), s[|s| - 1], key);
      SameSize(r, s);
      r
  }

  lemma SameSize<T>(a: seq<T>, b: seq<T>)
    requires multiset(a) == multiset(b)
    ensures |a| == |b|
  {
    assert |multiset(a)| == |a| && |multiset(b)| == |b|;
  }

  /** Equal keys occur only on equal elements. */
  ghost predicate Separates<T(!new)>(key: T -> string, s: seq<T>) {
    forall x, y {:trigger key(x), key(y)} :: x in s && y in s && key(x) == key(y) ==> x == y
  }

  lemma {:induction false} AscendingUnique<T(!new)>(a: seq<T>, b: seq<T>, key: T -> string)
    requires Ascending(a, key) && Ascending(b, key) && multiset(a) == multiset(b) && Separates(key, a)
    ensures a == b
  {
    hide Ascending, Separates;
    SameSize(a, b);
    if a != [] {
      var n := |a| - 1;
      SameLast(a, b, key);
      PrefixesSame(a, b);
      PrefixOrdered(a, key);
      PrefixOrdered(b, key);
      PrefixSeparated(a, key);
      AscendingUnique(a[..n], b[..n], key);
      assert a == a[..n] + [a[n]] && b == b[..n] + [b[n]];
    }
  }

  lemma PrefixesSame<T>(a: seq<T>, b: seq<T>)
    requires multiset(a) == multiset(b) && a != [] && |a| == |b| && a[|a| - 1] == b[|b| - 1]
    ensures multiset(a[..|a| - 1]) == multiset(b[..|b| - 1])
  {
    WithoutLast(a);
    WithoutLast(b);
  }

  lemma PrefixOrdered<T>(a: seq<T>, key: T -> string)
    requires Ascending(a, key) && a != []
    ensures Ascending(a[..|a| - 1], key)
  {
  }

  lemma PrefixSeparated<T(!new)>(a: seq<T>, key: T -> string)
    requires Separates(key, a) && a != []
    ensures Separates(key, a[..|a| - 1])
  {
    assert forall x :: x in a[..|a| - 1] ==> x in a;
  }

  lemma WithoutLast<T>(a: seq<T>)
    requires a != []
    ensures multiset(a[..|a| - 1]) == multiset(a) - multiset{a[|a| - 1]}
  {
    assert a == a[..|a| - 1] + [a[|a| - 1]];
  }

  lemma SameLast<T(!new)>(a: seq<T>, b: seq<T>, key: T -> string)
    requires Ascending(a, key) && Ascending(b, key) && multiset(a) == multiset(b) && Separates(key, a)
    requires a != [] && b != []
    ensures a[|a| - 1] == b[|b| - 1]
  {
    LastIsGreatest(a, b, key);
    LastIsGreatest(b, a, key);
    Antisymmetric(key(a[|a| - 1]), key(b[|b| - 1]));
    assert b[|b| - 1] in multiset(a);
  }

  lemma LastIsGreatest<T>(a: seq<T>, b: seq<T>, key: T -> string)
    requires Ascending(a, key) && multiset(a) == multiset(b) && a != [] && b != []
    ensures AtMost(key(b[|b| - 1]), key(a[|a| - 1]))
  {
    var y := b[|b| - 1];
    assert y in multiset(b);
    var i :| 0 <= i < |a| && a[i] == y;
    Total(key(y), key(y));
  }

  /** Sorting forgets the input order wherever the key separates the elements. */
  lemma SortForgetsOrder<T(!new)>(a: seq<T>, b: seq<T>, key: T -> string)
    requires multiset(a) == multiset(b) && Separates(key, a)
    ensures SortBy(a, key) == SortBy(b, key)
  {
    var r := SortBy(a, key);
    forall x, y | x in r && y in r && key(x) == key(y)
      ensures x == y
    {
      assert x in multiset(r) && y in multiset(r);
    }
    AscendingUnique(r, SortBy(b, key), key);
  }

  // ---- Grouping ----

  datatype Group<+T> = Group(count: nat, item: T)

  /** Each run of equal keys becomes one group holding the run's first element. */
  function Runs<T>(s: seq<T>, key: T -> string): (groups: seq<Group<T>>)
    ensures s != [] ==> groups != []
  {
    if s == [] then []
    else
      var n := |s| - 1;
      var before := Runs(s[..n], key);
      if n > 0 && key(s[n - 1]) == key(s[n]) then
        before[..|before| - 1] + [before[|before| - 1].(count := before[|before| - 1].count + 1)]
      else before + [Group(1, s[n])]
  }

  method GroupBy<T>(s: seq<T>, key: T -> string) returns (groups: seq<Group<T>>)
    ensures groups == Runs(s, key)
  {
    groups := [];
    var previous: string := "";
    for i := 0 to |s|
      invariant groups == Runs(s[..i], key)
      invariant i > 0 ==> previous == key(s[i - 1])
    {
      assert s[..i + 1][..i] == s[..i];
      var current := key(s[i]);
      if i > 0 && previous == current {
        var last := groups[|groups| - 1];
        groups := groups[..|groups| - 1] + [last.(count := last.count + 1)];
      } else {
        previous := current;
        groups := groups + [Group(1, s[i])];
      }
    }
    assert s[..|s|] == s;
  }

  /** The elements sorted and grouped by their keys. */
  function Gather<T>(items: seq<T>, key: T -> string): seq<Group<T>> {
    Runs(SortBy(items, key), key)
  }

  lemma GatherIs<T>(items: seq<T>, key: T -> string)
    ensures Gather(items, key) == Runs(SortBy(items, key), key)
  {
  }

  function Items<T>(groups: seq<Group<T>>): nat {
    if groups == [] then 0 else Items(groups[..|groups| - 1]) + groups[|groups| - 1].count
  }

  // Adding one element either starts a group or lengthens the last one.
  lemma RunsStep<T>(s: seq<T>, key: T -> string)
    requires s != []
    ensures var n, groups := |s| - 1, Runs(s, key);
            var before := Runs(s[..n], key);
            if n > 0 && key(s[n - 1]) == key(s[n]) then
              && |groups| == |before| > 0 && groups[..|groups| - 1] == before[..|before| - 1]
              && groups[|groups| - 1] == before[|before| - 1].(count := before[|before| - 1].count + 1)
            else |groups| == |before| + 1 && groups[..|before|] == before && groups[|before|] == Group(1, s[n])
  {
  }

  /** The counts of one level add up to the number of grouped elements, whatever the key. */
  lemma {:induction false} CountsAddUp<T>(s: seq<T>, key: T -> string)
    ensures Items(Runs(s, key)) == |s|
  {
    if s != [] {
      CountsAddUp(s[..|s| - 1], key);
      RunsStep(s, key);
    }
  }

  /** Every group holds at least one element, and holds an element of the input. */
  lemma {:induction false} GroupsHold<T>(s: seq<T>, key: T -> string)
    ensures forall i :: 0 <= i < |Runs(s, key)| ==> Runs(s, key)[i].count > 0 && Runs(s, key)[i].item in s
    ensures s != [] ==> key(Runs(s, key)[|Runs(s, key)| - 1].item) == key(s[|s| - 1])
  {
    hide Runs;
    if s == [] {
      EmptyRuns<T>(key);
    } else {
      var n, groups := |s| - 1, Runs(s, key);
      var before := Runs(s[..n], key);
      GroupsHold(s[..n], key);
      RunsStep(s, key);
      forall i | 0 <= i < |groups|
        ensures groups[i].count > 0 && groups[i].item in s
      {
        if i < |groups| - 1 {
          assert groups[i] == groups[..|groups| - 1][i];
        }
      }
    }
  }

  /** Each group counted as often as its multiplicity. */
  function Weight<T>(groups: seq<Group<T>>, size: T -> nat): nat {
    if groups == [] then 0
    else Weight(groups[..|groups| - 1], size) + Times(size(groups[|groups| - 1].item), groups[|groups| - 1].count)
  }

  function Sum<T>(s: seq<T>, size: T -> nat): nat {
    if s == [] then 0 else Sum(s[..|s| - 1], size) + size(s[|s| - 1])
  }

  /** Equal keys occur only on elements of equal size. */
  ghost predicate SeparatesSizes<T(!new)>(key: T -> string, size: T -> nat, s: seq<T>) {
    forall x, y {:trigger key(x), key(y)} :: x in s && y in s && key(x) == key(y) ==> size(x) == size(y)
  }

  lemma SizesSeparatedBefore<T(!new)>(s: seq<T>, key: T -> string, size: T -> nat)
    requires SeparatesSizes(key, size, s) && s != []
    ensures SeparatesSizes(key, size, s[..|s| - 1])
  {
    assert forall x :: x in s[..|s| - 1] ==> x in s;
  }

  /** Grouping loses no weight wherever equal keys mean equal sizes. */
  lemma {:induction false} WeightKept<T(!new)>(s: seq<T>, key: T -> string, size: T -> nat)
    requires SeparatesSizes(key, size, s)
    ensures Weight(Runs(s, key), size) == Sum(s, size)
  {
    hide Runs, SeparatesSizes;
    if s == [] {
      EmptyRuns<T>(key);
    } else {
      var n, groups := |s| - 1, Runs(s, key);
      SizesSeparatedBefore(s, key, size);
      WeightKept(s[..n], key, size);
      RunsStep(s, key);
      assert Times(size(s[n]), 1) == size(s[n]);
      if n > 0 && key(s[n - 1]) == key(s[n]) {
        LastGroupSize(s, key, size);
      }
    }
  }

  lemma EmptyRuns<T>(key: T -> string)
    ensures Runs<T>([], key) == []
  {
  }

  lemma LastGroupSize<T(!new)>(s: seq<T>, key: T -> string, size: T -> nat)
    requires |s| > 1 && key(s[|s| - 2]) == key(s[|s| - 1]) && SeparatesSizes(key, size, s)
    ensures var before := Runs(s[..|s| - 1], key);
            before != [] && size(before[|before| - 1].item) == size(s[|s| - 1])
  {
    hide Runs;
    var n := |s| - 1;
    var before := Runs(s[..n], key);
    GroupsHold(s[..n], key);
    assert before[|before| - 1].item in s[..n];
    assert before[|before| - 1].item in s;
  }

  lemma {:induction false} SumOfSame<T>(a: seq<T>, b: seq<T>, size: T -> nat)
    requires multiset(a) == multiset(b)
    ensures Sum(a, size) == Sum(b, size)
  {
    SameSize(a, b);
    if a != [] {
      var x := a[|a| - 1];
      assert x in multiset(b);
      var i :| 0 <= i < |b| && b[i] == x;
      var rest := b[..i] + b[i + 1..];
      assert b == b[..i] + [x] + b[i + 1..];
      WithoutLast(a);
      SumOfSame(a[..|a| - 1], rest, size);
      SumWithout(b, i, size);
    }
  }

  lemma {:induction false} SumWithout<T>(s: seq<T>, i: nat, size: T -> nat)
    requires i < |s|
    ensures Sum(s, size) == Sum(s[..i] + s[i + 1..], size) + size(s[i])
  {
    if i == |s| - 1 {
      assert s[..i] + s[i + 1..] == s[..|s| - 1];
    } else {
      var rest := s[..i] + s[i + 1..];
      SumWithout(s[..|s| - 1], i, size);
      assert rest[..|rest| - 1] == s[..|s| - 1][..i] + s[..|s| - 1][i + 1..];
    }
  }

  lemma {:induction false} SameMultisetOfImages<A, B>(a: seq<A>, b: seq<A>, f: A -> B)
    requires multiset(a) == multiset(b)
    ensures multiset(Images(a, f)) == multiset(Images(b, f))
  {
    SameSize(a, b);
    if a != [] {
      var n := |a| - 1;
      var x := a[n];
      assert x in multiset(b);
      var i :| 0 <= i < |b| && b[i] == x;
      var rest := b[..i] + b[i + 1..];
      assert b == b[..i] + [x] + b[i + 1..];
      WithoutLast(a);
      SameMultisetOfImages(a[..n], rest, f);
      ImagesWithout(a, n, f);
      ImagesWithout(b, i, f);
      assert a[..n] + a[n + 1..] == a[..n];
    }
  }

  lemma ImagesWithout<A, B>(s: seq<A>, i: nat, f: A -> B)
    requires i < |s|
    ensures multiset(Images(s, f)) == multiset(Images(s[..i] + s[i + 1..], f)) + multiset{f(s[i])}
  {
    assert Images(s, f) == Images(s[..i], f) + [f(s[i])] + Images(s[i + 1..], f);
    assert Images(s[..i] + s[i + 1..], f) == Images(s[..i], f) + Images(s[i + 1..], f);
  }

  function Images<A, B>(s: seq<A>, f: A -> B): (r: seq<B>)
    ensures |r| == |s| && forall i :: 0 <= i < |s| ==> r[i] == f(s[i])
  {
    seq(|s|, i requires 0 <= i < |s| => f(s[i]))
  }

  lemma {:induction false} DistinctSame<T>(a: seq<T>, b: seq<T>)
    requires Distinct(a) && Distinct(b) && forall x :: x in a <==> x in b
    ensures multiset(a) == multiset(b)
  {
    DistinctOnce(a);
    DistinctOnce(b);
    forall x
      ensures multiset(a)[x] == multiset(b)[x]
    {
      assert x in multiset(a) <==> x in a;
      assert x in multiset(b) <==> x in b;
    }
  }

  lemma {:induction false} DistinctOnce<T>(a: seq<T>)
    requires Distinct(a)
    ensures forall x :: multiset(a)[x] <= 1
  {
    if a != [] {
      DistinctOnce(a[..|a| - 1]);
      assert a == a[..|a| - 1] + [a[|a| - 1]];
    }
  }
}
