/** The sweep line that counts how many server spans run at once. */
module Sweep {

  datatype Interval = Interval(start: int, end: int)

  datatype Event = Event(at: int, delta: int)

  predicate Before(a: Event, b: Event) {
    if a.at == b.at then a.delta <= b.delta else a.at < b.at
  }

  predicate Sorted(s: seq<Event>) {
    forall i, j :: 0 <= i < j < |s| ==> Before(s[i], s[j])
  }

  function Events(intervals: seq<Interval>): seq<Event> {
    if intervals == [] then []
    else
      var last := intervals[|intervals| - 1];
      Events(intervals[..|intervals| - 1]) + [Event(last.start, 1), Event(last.end, -1)]
  }

  function Insert(s: seq<Event>, e: Event): (r: seq<Event>)
    requires Sorted(s)
    ensures Sorted(r) && multiset(r) == multiset(s) + multiset{e}
  {
    if s == [] then [e]
    else if Before(e, s[0]) then [e] + s
    else
      var rest := Insert(s[1..], e);
      InsertKeepsHead(s, e, rest);
      [s[0]] + rest
  }

  lemma InsertKeepsHead(s: seq<Event>, e: Event, rest: seq<Event>)
    requires Sorted(s) && s != [] && !Before(e, s[0])
    requires Sorted(rest) && multiset(rest) == multiset(s[1..]) + multiset{e}
    ensures Sorted([s[0]] + rest) && multiset([s[0]] + rest) == multiset(s) + multiset{e}
  {
    assert s == [s[0]] + s[1..];
    forall i | 0 <= i < |rest|
      ensures Before(s[0], rest[i])
    {
      assert rest[i] in multiset(rest);
      assert rest[i] == e || rest[i] in s[1..];
    }
  }

  /** The library sort, as any function that sorts. */
  function Sort(s: seq<Event>): (r: seq<Event>)
    ensures Sorted(r) && multiset(r) == multiset(s)
  {
    if s == [] then []
    else
      assert s == s[..|s| - 1] + [s[|s| - 1]];
      Insert(Sort(s[..|s| - 1]), s[|s| - 1])
  }

  function Active(s: seq<Event>): int {
    if s == [] then 0 else Active(s[..|s| - 1]) + s[|s| - 1].delta
  }

  /** The largest running sum over all prefixes, the empty one included. */
  function MaxActive(s: seq<Event>): (m: int)
    ensures m >= 0 && m >= Active(s)
  {
    if s == [] then 0
    else
      var before := MaxActive(s[..|s| - 1]);
      if Active(s) > before then Active(s) else before
  }

  function Peak(intervals: seq<Interval>): int {
    MaxActive(Sort(Events(intervals)))
  }

  method Overlap(intervals: seq<Interval>) returns (peak: int)
    ensures peak == Peak(intervals)
  {
    var events: seq<Event> := [];
    for i := 0 to |intervals|
      invariant events == Events(intervals[..i])
    {
      assert intervals[..i + 1][..i] == intervals[..i];
      events := events + [Event(intervals[i].start, 1), Event(intervals[i].end, -1)];
    }
    assert intervals[..|intervals|] == intervals;
    events := Sort(events);
    var active := 0;
    peak := 0;
    for i := 0 to |events|
      invariant active == Active(events[..i]) && peak == MaxActive(events[..i])
    {
      assert events[..i + 1][..i] == events[..i];
      active := active + events[i].delta;
      if active > peak {
        peak := active;
      }
    }
    assert events[..|events|] == events;
  }

  // ---- What the peak means ----

  /** Intervals begun minus intervals ended at the instant. */
  function SignedDepth(intervals: seq<Interval>, t: int): int {
    if intervals == [] then 0
    else
      var last := intervals[|intervals| - 1];
      SignedDepth(intervals[..|intervals| - 1], t) +
        (if last.start <= t then 1 else 0) - (if last.end <= t then 1 else 0)
  }

  /** How many of the half-open intervals contain the instant. */
  function Depth(intervals: seq<Interval>, t: int): nat {
    if intervals == [] then 0
    else
      var last := intervals[|intervals| - 1];
      Depth(intervals[..|intervals| - 1], t) + if last.start <= t < last.end then 1 else 0
  }

  ghost predicate Proper(intervals: seq<Interval>) {
    forall i :: 0 <= i < |intervals| ==> intervals[i].start < intervals[i].end
  }

  lemma {:induction false} ProperDepth(intervals: seq<Interval>, t: int)
    requires Proper(intervals)
    ensures SignedDepth(intervals, t) == Depth(intervals, t)
    decreases |intervals|
  {
    if intervals != [] {
      ProperDepth(intervals[..|intervals| - 1], t);
    }
  }

  function Contribution(e: Event, t: int): int {
    if e.at <= t then e.delta else 0
  }

  function SumAt(s: seq<Event>, t: int): int {
    if s == [] then 0 else SumAt(s[..|s| - 1], t) + Contribution(s[|s| - 1], t)
  }

  lemma {:induction false} SumAtConcat(a: seq<Event>, b: seq<Event>, t: int)
    ensures SumAt(a + b, t) == SumAt(a, t) + SumAt(b, t)
  {
    if b == [] {
      assert a + b == a;
    } else {
      SumAtConcat(a, b[..|b| - 1], t);
      assert (a + b)[..|a + b| - 1] == a + b[..|b| - 1];
    }
  }

  lemma {:induction false} SumAtInsert(s: seq<Event>, e: Event, t: int)
    requires Sorted(s)
    ensures SumAt(Insert(s, e), t) == SumAt(s, t) + Contribution(e, t)
    decreases |s|
  {
    assert SumAt([e], t) == Contribution(e, t);
    if s != [] {
      assert s == [s[0]] + s[1..];
      SumAtConcat([s[0]], s[1..], t);
      if Before(e, s[0]) {
        SumAtConcat([e], s, t);
      } else {
        SumAtInsert(s[1..], e, t);
        SumAtConcat([s[0]], Insert(s[1..], e), t);
      }
    }
  }

  lemma {:induction false} SumAtSort(s: seq<Event>, t: int)
    ensures SumAt(Sort(s), t) == SumAt(s, t)
    decreases |s|
  {
    if s != [] {
      SumAtSort(s[..|s| - 1], t);
      SumAtInsert(Sort(s[..|s| - 1]), s[|s| - 1], t);
    }
  }

  lemma {:induction false} DepthIsSum(intervals: seq<Interval>, t: int)
    ensures SignedDepth(intervals, t) == SumAt(Events(intervals), t)
    decreases |intervals|
  {
    if intervals != [] {
      var init, last := intervals[..|intervals| - 1], intervals[|intervals| - 1];
      DepthIsSum(init, t);
      var opening, closing := [Event(last.start, 1)], [Event(last.end, -1)];
      assert Events(intervals) == Events(init) + opening + closing;
      SumAtConcat(Events(init) + opening, closing, t);
      SumAtConcat(Events(init), opening, t);
      assert SumAt(opening, t) == Contribution(opening[0], t) && SumAt(closing, t) == Contribution(closing[0], t);
    }
  }

  /** Up to an instant, a sorted sequence is a prefix. */
  lemma {:induction false} SumIsActive(s: seq<Event>, t: int) returns (n: nat)
    requires Sorted(s)
    ensures n <= |s| && SumAt(s, t) == Active(s[..n])
    ensures forall i :: 0 <= i < |s| ==> (s[i].at <= t <==> i < n)
    decreases |s|
  {
    if s == [] {
      n := 0;
    } else {
      var init := s[..|s| - 1];
      n := SumIsActive(init, t);
      assert init[..n] == s[..n];
      if s[|s| - 1].at <= t {
        assert n == |init|;
        n := |s|;
        assert s[..n] == s && init[..|init|] == init;
      }
    }
  }

  lemma {:induction false} PrefixBelowMax(s: seq<Event>, n: nat)
    requires n <= |s|
    ensures Active(s[..n]) <= MaxActive(s)
    decreases |s|
  {
    if n == |s| {
      assert s[..n] == s;
    } else {
      assert s[..|s| - 1][..n] == s[..n];
      PrefixBelowMax(s[..|s| - 1], n);
    }
  }

  lemma {:induction false} MaxIsAttained(s: seq<Event>) returns (n: nat)
    ensures n <= |s| && Active(s[..n]) == MaxActive(s)
    ensures n > 0 ==> s[n - 1].delta > 0
    ensures n == 0 ==> MaxActive(s) == 0
    decreases |s|
  {
    if s == [] {
      n := 0;
    } else {
      var init := s[..|s| - 1];
      if Active(s) > MaxActive(init) {
        n := |s|;
        assert s[..n] == s;
      } else {
        n := MaxIsAttained(init);
        assert s[..n] == init[..n];
      }
    }
  }

  /** Extending a prefix by opening events only cannot lower the running sum. */
  lemma {:induction false} OpeningsRaise(s: seq<Event>, n: nat, m: nat)
    requires n <= m <= |s| && forall i :: n <= i < m ==> s[i].delta >= 0
    ensures Active(s[..n]) <= Active(s[..m])
    decreases m - n
  {
    if n < m {
      OpeningsRaise(s, n, m - 1);
      assert s[..m][..m - 1] == s[..m - 1];
    }
  }

  /** The sweep returns the largest signed depth, or 0 when none is positive. */
  lemma PeakIsLargestDepth(intervals: seq<Interval>)
    ensures forall t :: SignedDepth(intervals, t) <= Peak(intervals)
    ensures Peak(intervals) > 0 ==> exists t :: SignedDepth(intervals, t) == Peak(intervals)
    ensures Peak(intervals) >= 0
  {
    var s := Sort(Events(intervals));
    forall t
      ensures SignedDepth(intervals, t) <= Peak(intervals)
    {
      DepthIsSum(intervals, t);
      SumAtSort(Events(intervals), t);
      var n := SumIsActive(s, t);
      PrefixBelowMax(s, n);
    }
    if Peak(intervals) > 0 {
      var n := MaxIsAttained(s);
      var t := s[n - 1].at;
      var m := SumIsActive(s, t);
      forall i | n <= i < m
        ensures s[i].delta >= 0
      {
        assert Before(s[n - 1], s[i]);
      }
      OpeningsRaise(s, n, m);
      DepthIsSum(intervals, t);
      SumAtSort(Events(intervals), t);
    }
  }

  /** For proper intervals that is the exact maximum number of intervals that share
      an instant. */
  lemma PeakIsMaximumDepth(intervals: seq<Interval>)
    requires Proper(intervals)
    ensures forall t :: Depth(intervals, t) <= Peak(intervals)
    ensures intervals != [] ==> exists t :: Depth(intervals, t) == Peak(intervals)
    ensures intervals == [] ==> Peak(intervals) == 0
  {
    PeakIsLargestDepth(intervals);
    forall t
      ensures Depth(intervals, t) == SignedDepth(intervals, t)
    {
      ProperDepth(intervals, t);
    }
    if intervals != [] {
      assert Depth(intervals, intervals[|intervals| - 1].start) >= 1;
      var t :| SignedDepth(intervals, t) == Peak(intervals);
      assert Depth(intervals, t) == Peak(intervals);
    }
  }

  // ---- Independence of the order of intervals ----

  lemma SortedHead(a: seq<Event>, b: seq<Event>)
    requires Sorted(a) && Sorted(b) && multiset(a) == multiset(b) && a != [] && b != []
    ensures a[0] == b[0]
  {
    assert a[0] in multiset(b) && b[0] in multiset(a);
    var i :| 0 <= i < |b| && b[i] == a[0];
    var j :| 0 <= j < |a| && a[j] == b[0];
    assert i == 0 || Before(b[0], b[i]);
    assert j == 0 || Before(a[0], a[j]);
  }

  lemma {:induction false} SortedUnique(a: seq<Event>, b: seq<Event>)
    requires Sorted(a) && Sorted(b) && multiset(a) == multiset(b)
    ensures a == b
    decreases |a|
  {
    assert |a| == |multiset(a)| == |multiset(b)| == |b|;
    if a != [] {
      SortedHead(a, b);
      assert a == [a[0]] + a[1..] && b == [b[0]] + b[1..];
      assert multiset(a[1..]) == multiset(a) - multiset{a[0]} == multiset(b[1..]);
      SortedUnique(a[1..], b[1..]);
    }
  }

  function EventBag(intervals: seq<Interval>): multiset<Event> {
    multiset(Events(intervals))
  }

  lemma {:induction false} EventsConcat(a: seq<Interval>, b: seq<Interval>)
    ensures Events(a + b) == Events(a) + Events(b)
    decreases |b|
  {
    if b == [] {
      assert a + b == a;
    } else {
      EventsConcat(a, b[..|b| - 1]);
      assert (a + b)[..|a + b| - 1] == a + b[..|b| - 1];
    }
  }

  lemma RemoveInterval(pre: seq<Interval>, x: Interval, post: seq<Interval>)
    ensures EventBag(pre + [x] + post) == EventBag(pre + post) + EventBag([x])
  {
    EventsConcat(pre + [x], post);
    EventsConcat(pre, [x]);
    EventsConcat(pre, post);
  }

  lemma Without(pre: seq<Interval>, x: Interval, post: seq<Interval>)
    ensures multiset(pre + [x] + post) == multiset(pre + post) + multiset{x}
  {
  }

  lemma Cancel(m: multiset<Interval>, n: multiset<Interval>, x: Interval)
    requires m + multiset{x} == n + multiset{x}
    ensures m == n
  {
    assert m == (m + multiset{x}) - multiset{x};
    assert n == (n + multiset{x}) - multiset{x};
  }

  lemma MatchFirst(a: seq<Interval>, b: seq<Interval>) returns (pre: seq<Interval>, post: seq<Interval>)
    requires multiset(a) == multiset(b) && a != []
    ensures b == pre + [a[0]] + post && multiset(a[1..]) == multiset(pre + post)
  {
    var x := a[0];
    assert x in multiset(b);
    var k :| 0 <= k < |b| && b[k] == x;
    pre, post := b[..k], b[k + 1..];
    assert a == [] + [x] + a[1..] && [] + a[1..] == a[1..];
    assert b == pre + [x] + post;
    Without([], x, a[1..]);
    Without(pre, x, post);
    Cancel(multiset(a[1..]), multiset(pre + post), x);
  }

  lemma {:induction false} SameEventBag(a: seq<Interval>, b: seq<Interval>)
    requires multiset(a) == multiset(b)
    ensures EventBag(a) == EventBag(b)
    decreases |a|
  {
    if a == [] {
      assert |multiset(b)| == |b|;
    } else {
      hide Events;
      var pre, post := MatchFirst(a, b);
      SameEventBag(a[1..], pre + post);
      RemoveInterval(pre, a[0], post);
      EventsConcat([a[0]], a[1..]);
      assert a == [a[0]] + a[1..];
    }
  }

  /** Even for improper intervals, the order they arrive in does not matter. */
  lemma PeakOrderIndependent(a: seq<Interval>, b: seq<Interval>)
    requires multiset(a) == multiset(b)
    ensures Peak(a) == Peak(b)
  {
    SameEventBag(a, b);
    SortedUnique(Sort(Events(a)), Sort(Events(b)));
  }
}
