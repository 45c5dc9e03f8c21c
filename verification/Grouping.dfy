/** Which element stands for a group: the first of the input that has the group's key. */
module Grouping {
  import opened Basics
  import opened Ordering

  /** The elements with the given key, in the order of the list. */
  function With<T>(s: seq<T>, key: T -> string, k: string): seq<T> {
    if s == [] then []
    else
      var n := |s| - 1;
      With(s[..n], key, k) + if key(s[n]) == k then [s[n]] else []
  }

  lemma {:induction false} WithHolds<T>(s: seq<T>, key: T -> string, k: string)
    ensures forall x :: x in With(s, key, k) <==> x in s && key(x) == k
    ensures With(s, key, k) != [] ==> With(s, key, k)[0] in s && key(With(s, key, k)[0]) == k
  {
    if s != [] {
      WithHolds(s[..|s| - 1], key, k);
      assert s == s[..|s| - 1] + [s[|s| - 1]];
    }
  }

  lemma WithAppend<T>(s: seq<T>, x: T, key: T -> string, k: string)
    ensures With(s + [x], key, k) == With(s, key, k) + if key(x) == k then [x] else []
  {
    assert (s + [x])[..|s|] == s;
  }

  lemma InsertStep<T>(s: seq<T>, x: T, key: T -> string)
    requires Ascending(s, key) && s != []
    ensures var n := |s| - 1;
            && Ascending(s[..n], key)
            && Insert(s, x, key) == if AtMost(key(s[n]), key(x)) then s + [x] else Insert(s[..n], x, key) + [s[n]]
  {
    hide AtMost;
    PrefixOrdered(s, key);
  }

  /** Inserting puts an element behind those of the same key. */
  lemma {:induction false} InsertIsStable<T>(s: seq<T>, x: T, key: T -> string, k: string)
    requires Ascending(s, key)
    ensures With(Insert(s, x, key), key, k) == With(s + [x], key, k)
  {
    hide Ascending, AtMost, Insert, With;
    WithAppend(s, x, key, k);
    if s == [] {
      InsertFirst(x, key);
    } else {
      var n := |s| - 1;
      InsertStep(s, x, key);
      if !AtMost(key(s[n]), key(x)) {
        InsertIsStable(s[..n], x, key, k);
        WithAppend(s[..n], x, key, k);
        WithAppend(Insert(s[..n], x, key), s[n], key, k);
        WithAppend(s[..n], s[n], key, k);
        assert s == s[..n] + [s[n]];
        Total(key(x), key(x));
        var before := With(s[..n], key, k);
        assert key(s[n]) != key(x);
      }
    }
  }

  lemma InsertFirst<T>(x: T, key: T -> string)
    ensures Insert([], x, key) == [] + [x]
  {
  }

  /** Sorting keeps the order of elements of the same key. */
  lemma {:induction false} SortIsStable<T>(s: seq<T>, key: T -> string, k: string)
    ensures With(SortBy(s, key), key, k) == With(s, key, k)
  {
    hide Ascending, Insert;
    if s != [] {
      var n := |s| - 1;
      SortIsStable(s[..n], key, k);
      InsertIsStable(SortBy(s[..n], key), s[n], key, k);
      WithAppend(SortBy(s[..n], key), s[n], key, k);
    }
  }

  /** The first element with the key of the given one. */
  function First<T>(s: seq<T>, key: T -> string, x: T): (r: T)
    ensures key(r) == key(x)
    ensures x in s ==> r in s
  {
    WithHolds(s, key, key(x));
    var same := With(s, key, key(x));
    if same == [] then x else same[0]
  }

  /** Nothing before the first element has its key. */
  lemma {:induction false} FirstIsEarliest<T>(s: seq<T>, key: T -> string, i: nat) returns (j: nat)
    requires i < |s|
    ensures j <= i && s[j] == First(s, key, s[i])
  {
    FirstBefore(s, key, s[i], i + 1);
    WithHolds(s[..i + 1], key, key(s[i]));
    var f := First(s[..i + 1], key, s[i]);
    assert s[..i + 1][i] == s[i];
    j :| 0 <= j < i + 1 && s[..i + 1][j] == f;
  }

  lemma {:induction false} WithPrefix<T>(s: seq<T>, key: T -> string, k: string, n: nat)
    requires n <= |s|
    ensures With(s[..n], key, k) <= With(s, key, k)
  {
    if n == |s| {
      assert s[..n] == s;
    } else {
      WithPrefix(s[..|s| - 1], key, k, n);
      assert s[..|s| - 1][..n] == s[..n];
    }
  }

  lemma FirstBefore<T>(s: seq<T>, key: T -> string, x: T, n: nat)
    requires n <= |s| && x in s[..n]
    ensures First(s, key, x) == First(s[..n], key, x)
  {
    WithPrefix(s, key, key(x), n);
    WithHolds(s[..n], key, key(x));
    assert x in With(s[..n], key, key(x));
  }

  ghost predicate HasItem<T>(groups: seq<Group<T>>, x: T) {
    exists i :: 0 <= i < |groups| && groups[i].item == x
  }

  /** Every group holds the first element with its key, and no key is without a group. */
  ghost predicate HoldsFirst<T(!new)>(s: seq<T>, key: T -> string, groups: seq<Group<T>>, among: seq<T>) {
    && (forall i :: 0 <= i < |groups| ==> groups[i].item == First(s, key, groups[i].item))
    && (forall x :: x in among ==> HasItem(groups, First(s, key, x)))
  }

  /** In a sorted list the groups hold the first elements, one for each key. */
  lemma {:induction false} RunsHoldFirst<T(!new)>(s: seq<T>, key: T -> string, n: nat)
    requires Ascending(s, key) && n <= |s|
    ensures HoldsFirst(s, key, Runs(s[..n], key), s[..n])
  {
    hide Runs, Ascending, First, HoldsFirst;
    if n == 0 {
      EmptyRuns<T>(key);
      assert s[..0] == [];
      NothingHeld(s, key);
    } else {
      var m := n - 1;
      var before, groups := Runs(s[..m], key), Runs(s[..n], key);
      assert s[..n][..m] == s[..m] && s[..n] == s[..m] + [s[m]];
      RunsHoldFirst(s, key, m);
      RunsStep(s[..n], key);
      if m > 0 && key(s[m - 1]) == key(s[m]) {
        assert s[m - 1] in s[..m] && s[m - 1] in s by {
          assert s[..m][m - 1] == s[m - 1];
        }
        SameFirst(s, key, s[m - 1], s[m]);
        HeldAfterLengthening(s, key, before, groups, s[..m], s[m - 1], s[m]);
      } else {
        NewKeyIsFirst(s, key, m);
        HeldAfterAppending(s, key, before, groups, s[..m], s[m]);
      }
    }
  }

  lemma NothingHeld<T(!new)>(s: seq<T>, key: T -> string)
    ensures HoldsFirst(s, key, [], [])
  {
  }

  lemma SameFirst<T>(s: seq<T>, key: T -> string, x: T, y: T)
    requires key(x) == key(y) && x in s
    ensures First(s, key, x) == First(s, key, y)
  {
    WithHolds(s, key, key(x));
  }

  lemma KeyBefore<T>(s: seq<T>, key: T -> string, m: nat, x: T)
    requires Ascending(s, key) && m < |s| && x in s[..m] && key(x) == key(s[m])
    ensures m > 0 && key(s[m - 1]) == key(s[m])
  {
    hide AtMost;
    var i :| 0 <= i < m && s[..m][i] == x;
    assert s[i] == x;
    Total(key(x), key(x));
    assert AtMost(key(s[i]), key(s[m - 1])) by {
      if i == m - 1 {
        Total(key(s[i]), key(s[i]));
      }
    }
    Antisymmetric(key(s[m - 1]), key(s[m]));
  }

  lemma NewKeyIsFirst<T>(s: seq<T>, key: T -> string, m: nat)
    requires Ascending(s, key) && m < |s| && (m > 0 ==> key(s[m - 1]) != key(s[m]))
    ensures First(s, key, s[m]) == s[m]
  {
    hide AtMost, With, First;
    WithHolds(s[..m], key, key(s[m]));
    if With(s[..m], key, key(s[m])) != [] {
      KeyBefore(s, key, m, With(s[..m], key, key(s[m]))[0]);
    }
    assert s[..m + 1] == s[..m] + [s[m]];
    WithAppend(s[..m], s[m], key, key(s[m]));
    assert s[..m + 1][m] == s[m];
    FirstBefore(s, key, s[m], m + 1);
  }

  lemma HeldAfterLengthening<T(!new)>(s: seq<T>, key: T -> string, before: seq<Group<T>>, groups: seq<Group<T>>,
                                      among: seq<T>, same: T, x: T)
    requires HoldsFirst(s, key, before, among) && same in among && First(s, key, same) == First(s, key, x)
    requires |groups| == |before| > 0 && groups[..|groups| - 1] == before[..|before| - 1]
    requires groups[|groups| - 1].item == before[|before| - 1].item
    ensures HoldsFirst(s, key, groups, among + [x])
  {
    hide First;
    var n := |groups| - 1;
    assert forall i :: 0 <= i < n ==> groups[i] == groups[..n][i] && before[i] == before[..n][i];
    assert forall i :: 0 <= i <= n ==> groups[i].item == before[i].item;
    forall y | y in among + [x]
      ensures HasItem(groups, First(s, key, y))
    {
      assert HasItem(before, First(s, key, y));
      var i :| 0 <= i < |before| && before[i].item == First(s, key, y);
      assert groups[i].item == First(s, key, y);
    }
  }

  lemma HeldAfterAppending<T(!new)>(s: seq<T>, key: T -> string, before: seq<Group<T>>, groups: seq<Group<T>>,
                                    among: seq<T>, x: T)
    requires HoldsFirst(s, key, before, among) && First(s, key, x) == x
    requires |groups| == |before| + 1 && groups[..|before|] == before && groups[|before|].item == x
    ensures HoldsFirst(s, key, groups, among + [x])
  {
    hide First;
    assert forall i :: 0 <= i < |before| ==> groups[i] == groups[..|before|][i];
    forall y | y in among + [x]
      ensures HasItem(groups, First(s, key, y))
    {
      if y in among {
        assert HasItem(before, First(s, key, y));
        var i :| 0 <= i < |before| && before[i].item == First(s, key, y);
        assert groups[i].item == First(s, key, y);
      } else {
        assert groups[|before|].item == First(s, key, y);
      }
    }
  }

  lemma {:induction false} FirstAfterSorting<T>(s: seq<T>, key: T -> string, x: T)
    ensures First(SortBy(s, key), key, x) == First(s, key, x)
  {
    SortIsStable(s, key, key(x));
  }

  lemma SortHolds<T>(s: seq<T>, key: T -> string)
    ensures forall x :: x in SortBy(s, key) <==> x in s
  {
    var sorted := SortBy(s, key);
    assert forall x :: x in sorted <==> x in multiset(sorted);
    assert forall x :: x in s <==> x in multiset(s);
  }

  /** Grouping keeps of each key the first element of the input. */
  lemma GatherHoldsFirst<T(!new)>(s: seq<T>, key: T -> string)
    ensures HoldsFirst(s, key, Gather(s, key), s)
  {
    hide Runs, Ascending, First;
    var sorted := SortBy(s, key);
    RunsHoldFirst(sorted, key, |sorted|);
    assert sorted[..|sorted|] == sorted;
    SortHolds(s, key);
    forall x
      ensures First(sorted, key, x) == First(s, key, x)
    {
      FirstAfterSorting(s, key, x);
    }
  }

  /** Two lists whose first elements differ under one key are grouped differently. */
  lemma FirstDecides<T(!new)>(a: seq<T>, b: seq<T>, key: T -> string)
    requires a != [] && b != [] && a[0] != b[0] && key(a[0]) == key(b[0])
    ensures Gather(a, key) != Gather(b, key)
  {
    hide Gather, First;
    GatherHoldsFirst(a, key);
    GatherHoldsFirst(b, key);
    FirstOfAll(a, key);
    FirstOfAll(b, key);
    if Gather(a, key) == Gather(b, key) {
      assert HasItem(Gather(a, key), First(a, key, a[0]));
      SameKeyInEither(a, b, key);
    }
  }

  lemma FirstOfAll<T>(s: seq<T>, key: T -> string)
    requires s != []
    ensures First(s, key, s[0]) == s[0]
  {
    assert s[..1] == [] + [s[0]];
    WithAppend([], s[0], key, key(s[0]));
    FirstBefore(s, key, s[0], 1);
  }

  // The item of a's first element would be the item of b's first element.
  lemma SameKeyInEither<T(!new)>(a: seq<T>, b: seq<T>, key: T -> string)
    requires a != [] && b != [] && key(a[0]) == key(b[0])
    requires HasItem(Gather(b, key), a[0]) && HoldsFirst(b, key, Gather(b, key), b) && First(b, key, b[0]) == b[0]
    ensures a[0] == b[0]
  {
    hide Gather;
    var i :| 0 <= i < |Gather(b, key)| && Gather(b, key)[i].item == a[0];
    assert First(b, key, a[0]) == a[0];
    WithHolds(b, key, key(a[0]));
    assert b[0] in With(b, key, key(b[0]));
  }

  // ---- The keys of the groups ----

  /** A group reduced to its count and key. */
  function KeyGroup<T>(key: T -> string): Group<T> -> Group<string> {
    (g: Group<T>) => Group(g.count, key(g.item))
  }

  lemma {:induction false} KeysOfRuns<T>(s: seq<T>, key: T -> string)
    ensures Images(Runs(s, key), KeyGroup(key)) == Runs(Images(s, key), Same)
  {
    hide Runs;
    if s == [] {
      EmptyRuns<T>(key);
      EmptyRuns<string>(Same);
    } else {
      var n, keys := |s| - 1, Images(s, key);
      KeysOfRuns(s[..n], key);
      assert keys[..n] == Images(s[..n], key);
      if n > 0 {
        GroupsHold(s[..n], key);
      }
      RunsStep(s, key);
      RunsStep(keys, Same);
    }
  }

  lemma SortedImages<T>(s: seq<T>, key: T -> string)
    ensures Images(SortBy(s, key), key) == SortBy(Images(s, key), Same)
  {
    var sorted := SortBy(s, key);
    SameMultisetOfImages(sorted, s, key);
    AscendingUnique(Images(sorted, key), SortBy(Images(s, key), Same), Same);
  }

  lemma GatheredKeys<T>(s: seq<T>, key: T -> string)
    ensures Images(Gather(s, key), KeyGroup(key)) == Gather(Images(s, key), Same)
  {
    KeysOfRuns(SortBy(s, key), key);
    SortedImages(s, key);
  }

  /** Counts and keys of the groups depend only on how often each key occurs. */
  lemma SameKeysSameGroups<T>(a: seq<T>, b: seq<T>, key: T -> string)
    requires multiset(Images(a, key)) == multiset(Images(b, key))
    ensures Images(Gather(a, key), KeyGroup(key)) == Images(Gather(b, key), KeyGroup(key))
  {
    hide Runs, SortBy;
    GatheredKeys(a, key);
    GatheredKeys(b, key);
    SortForgetsOrder(Images(a, key), Images(b, key), Same);
  }

  // ---- The weight of the groups ----

  function SizeOfFirst<T>(s: seq<T>, key: T -> string, size: T -> nat): T -> nat {
    x => size(First(s, key, x))
  }

  lemma {:induction false} WeightOfRuns<T(!new)>(s: seq<T>, key: T -> string, size: T -> nat, n: nat)
    requires Ascending(s, key) && n <= |s|
    ensures Weight(Runs(s[..n], key), size) == Sum(s[..n], SizeOfFirst(s, key, size))
  {
    hide Runs, Ascending, First;
    if n == 0 {
      EmptyRuns<T>(key);
      assert s[..0] == [];
    } else {
      var m := n - 1;
      var before := Runs(s[..m], key);
      assert s[..n][..m] == s[..m] && s[..n][m] == s[m];
      WeightOfRuns(s, key, size, m);
      RunsStep(s[..n], key);
      assert Times(size(s[m]), 1) == size(s[m]);
      if m > 0 && key(s[m - 1]) == key(s[m]) {
        LastItemIsFirst(s, key, m);
      } else {
        NewKeyIsFirst(s, key, m);
      }
    }
  }

  lemma LastItemIsFirst<T(!new)>(s: seq<T>, key: T -> string, m: nat)
    requires Ascending(s, key) && 0 < m < |s| && key(s[m - 1]) == key(s[m])
    ensures var before := Runs(s[..m], key);
            before != [] && before[|before| - 1].item == First(s, key, s[m])
  {
    hide Runs, Ascending, First;
    var before := Runs(s[..m], key);
    assert s[..m] != [] && s[..m][m - 1] == s[m - 1];
    RunsHoldFirst(s, key, m);
    GroupsHold(s[..m], key);
    var item := before[|before| - 1].item;
    assert item in s[..m];
    SameFirst(s, key, item, s[m]);
  }

  lemma {:induction false} SumPointwise<T>(s: seq<T>, f: T -> nat, g: T -> nat)
    requires forall x :: x in s ==> f(x) == g(x)
    ensures Sum(s, f) == Sum(s, g)
  {
    if s != [] {
      assert s == s[..|s| - 1] + [s[|s| - 1]];
      SumPointwise(s[..|s| - 1], f, g);
    }
  }

  /** Grouping gives every element the size of the first element with its key. */
  lemma GatherWeight<T(!new)>(s: seq<T>, key: T -> string, size: T -> nat)
    ensures Weight(Gather(s, key), size) == Sum(s, SizeOfFirst(s, key, size))
  {
    hide Runs, Ascending, First, Sum;
    var sorted := SortBy(s, key);
    WeightOfRuns(sorted, key, size, |sorted|);
    assert sorted[..|sorted|] == sorted;
    forall x
      ensures First(sorted, key, x) == First(s, key, x)
    {
      FirstAfterSorting(s, key, x);
    }
    SumPointwise(sorted, SizeOfFirst(sorted, key, size), SizeOfFirst(s, key, size));
    SumOfSame(sorted, s, SizeOfFirst(s, key, size));
  }

  lemma {:induction false} SumsCompare<T, U>(s: seq<T>, f: T -> nat, u: seq<U>, g: U -> nat)
    requires |s| == |u| && forall i :: 0 <= i < |s| ==> f(s[i]) <= g(u[i])
    ensures Sum(s, f) <= Sum(u, g)
    ensures Sum(s, f) == Sum(u, g) <==> forall i :: 0 <= i < |s| ==> f(s[i]) == g(u[i])
  {
    if s != [] {
      var n := |s| - 1;
      SumsCompare(s[..n], f, u[..n], g);
      assert forall i :: 0 <= i < n ==> s[..n][i] == s[i] && u[..n][i] == u[i];
    }
  }

  /** Items with the same key belong to parts of the same weight. */
  ghost predicate WeighAlike<T, U>(items: seq<U>, key: U -> string, parts: seq<T>, whole: T -> nat)
    requires |items| == |parts|
  {
    forall i, j :: 0 <= i < |parts| && 0 <= j < |parts| && key(items[i]) == key(items[j]) ==>
      whole(parts[i]) == whole(parts[j])
  }

  ghost predicate NoHeavier<T>(x: T, y: T, whole: T -> nat, exact: T -> bool) {
    whole(x) < whole(y) || (whole(x) == whole(y) && (exact(x) ==> exact(y)))
  }

  /** Items of at most the weight of their parts, the lightest first and among equals the
      inexact first: the groups weigh no more than the parts, and weigh the same exactly
      when every item is exact and equal keys mean equal weights. */
  lemma LightestFirst<T(!new), U(!new)>(items: seq<U>, key: U -> string, size: U -> nat,
                                        parts: seq<T>, whole: T -> nat, exact: T -> bool)
    requires |items| == |parts|
    requires forall i :: 0 <= i < |parts| ==> size(items[i]) <= whole(parts[i])
    requires forall i :: 0 <= i < |parts| ==> (size(items[i]) == whole(parts[i]) <==> exact(parts[i]))
    requires forall i, j :: 0 <= i < j < |parts| ==> NoHeavier(parts[i], parts[j], whole, exact)
    ensures Weight(Gather(items, key), size) <= Sum(parts, whole)
    ensures Weight(Gather(items, key), size) == Sum(parts, whole) <==>
            (forall x :: x in parts ==> exact(x)) && WeighAlike(items, key, parts, whole)
  {
    hide Gather, Sum, First;
    var f := SizeOfFirst(items, key, size);
    GatherWeight(items, key, size);
    forall i | 0 <= i < |parts|
      ensures f(items[i]) <= whole(parts[i])
      ensures f(items[i]) == whole(parts[i]) ==> exact(parts[i])
      ensures (forall x :: x in parts ==> exact(x)) && WeighAlike(items, key, parts, whole) ==>
              f(items[i]) == whole(parts[i])
    {
      var j := FirstIsEarliest(items, key, i);
      assert parts[j] in parts;
    }
    SumsCompare(items, f, parts, whole);
    if forall i :: 0 <= i < |parts| ==> f(items[i]) == whole(parts[i]) {
      forall i, j | 0 <= i < |parts| && 0 <= j < |parts| && key(items[i]) == key(items[j])
        ensures whole(parts[i]) == whole(parts[j])
      {
        SameFirst(items, key, items[i], items[j]);
      }
    }
  }

  // ---- Sizes by text ----

  /** Equal texts mean equal sizes. */
  ghost predicate Tells<T(!new)>(ids: seq<T>, text: T -> string, size: T -> nat) {
    forall x, y {:trigger text(x), text(y)} :: x in ids && y in ids && text(x) == text(y) ==> size(x) == size(y)
  }

  lemma AlikeIsTells<S, T(!new), U>(items: seq<U>, key: U -> string, parts: seq<S>, whole: S -> nat,
                                    ids: seq<T>, text: T -> string, size: T -> nat)
    requires |items| == |parts| == |ids|
    requires forall i :: 0 <= i < |ids| ==> key(items[i]) == text(ids[i]) && whole(parts[i]) == size(ids[i])
    ensures WeighAlike(items, key, parts, whole) <==> Tells(ids, text, size)
  {
    if WeighAlike(items, key, parts, whole) {
      forall x, y | x in ids && y in ids && text(x) == text(y)
        ensures size(x) == size(y)
      {
        var i :| 0 <= i < |ids| && ids[i] == x;
        var j :| 0 <= j < |ids| && ids[j] == y;
        assert key(items[i]) == key(items[j]);
      }
    }
    if Tells(ids, text, size) {
      forall i, j | 0 <= i < |parts| && 0 <= j < |parts| && key(items[i]) == key(items[j])
        ensures whole(parts[i]) == whole(parts[j])
      {
        assert ids[i] in ids && ids[j] in ids;
      }
    }
  }

  /** Renaming keeps whether texts tell sizes apart. */
  lemma TellsRenamed<T(!new)>(f: T -> T, ids: seq<T>, others: seq<T>, text: T -> string, size: T -> nat,
                              newText: T -> string, newSize: T -> nat)
    requires multiset(others) == multiset(Images(ids, f))
    requires forall id :: id in ids ==> newText(f(id)) == text(id) && newSize(f(id)) == size(id)
    ensures Tells(others, newText, newSize) <==> Tells(ids, text, size)
  {
    SameMembersOfImages(f, ids, others);
    if Tells(ids, text, size) {
      forall x, y | x in others && y in others && newText(x) == newText(y)
        ensures newSize(x) == newSize(y)
      {
        var u :| u in ids && f(u) == x;
        var v :| v in ids && f(v) == y;
        assert text(u) == text(v);
      }
    }
    if Tells(others, newText, newSize) {
      forall u, v | u in ids && v in ids && text(u) == text(v)
        ensures size(u) == size(v)
      {
        assert newText(f(u)) == newText(f(v));
      }
    }
  }

  lemma SameMembersOfImages<T(!new)>(f: T -> T, ids: seq<T>, others: seq<T>)
    requires multiset(others) == multiset(Images(ids, f))
    ensures forall id :: id in ids ==> f(id) in others
    ensures forall id :: id in others ==> exists was :: was in ids && f(was) == id
  {
    var images := Images(ids, f);
    forall id | id in ids
      ensures f(id) in others
    {
      var i :| 0 <= i < |ids| && ids[i] == id;
      assert images[i] in multiset(others);
    }
    forall id | id in others
      ensures exists was :: was in ids && f(was) == id
    {
      assert id in multiset(images);
      var i :| 0 <= i < |images| && images[i] == id;
      assert ids[i] in ids;
    }
  }
}
