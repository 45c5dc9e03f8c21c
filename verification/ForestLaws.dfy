/** The forest in plain terms: which spans form one, in which order siblings stand, and how
    a span is written. */
module ForestLaws {
  import opened Wrappers
  import opened Ordering
  import opened ParentChains
  import opened TraceForest
  import opened Fingerprint

  // ---- The order of texts ----

  /** The texts agree up to i, where the first ends or has the smaller character. */
  ghost predicate EarlierAt(a: string, b: string, i: nat) {
    && i <= |a| && i < |b|
    && (forall j :: 0 <= j < i ==> a[j] == b[j])
    && (i == |a| || a[i] < b[i])
  }

  ghost predicate Earlier(a: string, b: string) {
    exists i: nat :: EarlierAt(a, b, i)
  }

  lemma EarlierTail(c: char, a: string, b: string)
    ensures Earlier([c] + a, [c] + b) <==> Earlier(a, b)
  {
    var x, y := [c] + a, [c] + b;
    assert forall j :: 0 <= j < |a| ==> x[j + 1] == a[j];
    assert forall j :: 0 <= j < |b| ==> y[j + 1] == b[j];
    if i: nat :| EarlierAt(a, b, i) {
      forall j | 0 <= j < i + 1
        ensures x[j] == y[j]
      {
        assert j > 0 ==> x[j] == a[j - 1] && y[j] == b[j - 1];
      }
      assert EarlierAt(x, y, i + 1);
    }
    if i: nat :| EarlierAt(x, y, i) {
      assert i > 0;
      forall j | 0 <= j < i - 1
        ensures a[j] == b[j]
      {
        assert x[j + 1] == y[j + 1];
      }
      assert EarlierAt(a, b, i - 1);
    }
  }

  lemma EarlierHeads(a: string, b: string)
    ensures a == "" ==> (Earlier(a, b) <==> b != "")
    ensures b == "" ==> !Earlier(a, b)
    ensures a != "" && b != "" && a[0] != b[0] ==> (Earlier(a, b) <==> a[0] < b[0])
  {
    if a == "" && b != "" {
      assert EarlierAt(a, b, 0);
    }
    if a != "" && b != "" && a[0] < b[0] {
      assert EarlierAt(a, b, 0);
    }
  }

  lemma {:induction false} AtMostIff(a: string, b: string)
    ensures AtMost(a, b) <==> a == b || Earlier(a, b)
    decreases |a|
  {
    hide Earlier;
    EarlierHeads(a, b);
    if a != "" && b != "" && a[0] == b[0] {
      assert a == [a[0]] + a[1..] && b == [b[0]] + b[1..];
      EarlierTail(a[0], a[1..], b[1..]);
      AtMostIff(a[1..], b[1..]);
    }
  }

  lemma NotEarlier(a: string)
    ensures !Earlier(a, a)
  {
  }

  // ---- How a span is written ----

  /** Visible ASCII characters, except quotation mark and backslash, and without a space or
      an exclamation mark. */
  predicate Plain(s: string) {
    forall i :: 0 <= i < |s| ==> '#' <= s[i] <= '~' && s[i] != '\\'
  }

  predicate PlainSpan(s: SemanticSpan) {
    Plain(s.scope) && Plain(s.kind) && Plain(s.status) && Plain(s.name)
  }

  lemma {:induction false} PlainEscape(s: string)
    requires Plain(s)
    ensures Escape(s) == s
    decreases |s|
  {
    if s != "" {
      PlainEscape(s[1..]);
      assert EscapeChar(s[0]) == [s[0]];
      assert s == [s[0]] + s[1..];
    }
  }

  /** The five fields, quoted, with U+001F between them. */
  lemma PlainHead(s: SemanticSpan)
    requires PlainSpan(s)
    ensures Head(s) == "\"" + s.scope + "\"\U{1f}\"" + s.kind + "\"\U{1f}\"" + s.status + "\"\U{1f}\"" + s.name +
                       "\"\U{1f}" + DebugStatus(s.httpStatus)
  {
    hide Escape, Plain, DebugStatus;
    PlainEscape(s.scope);
    PlainEscape(s.kind);
    PlainEscape(s.status);
    PlainEscape(s.name);
  }

  /** A status of three digits as text. */
  lemma StatusText(n: int)
    requires 100 <= n < 1000
    ensures DebugStatus(Some(n)) == "Some(" + [DigitChar(n / 100), DigitChar(n / 10 % 10), DigitChar(n % 10)] + ")"
  {
    hide Digits, DigitChar;
    DigitsAre(n / 100);
    DigitsAre(n / 10);
    DigitsAre(n);
    assert n / 10 / 10 == n / 100 && n / 100 % 10 == n / 100;
    assert Digits(n / 100) == [DigitChar(n / 100)];
    assert Digits(n / 10) == [DigitChar(n / 100), DigitChar(n / 10 % 10)];
    assert Digits(n) == [DigitChar(n / 100), DigitChar(n / 10 % 10), DigitChar(n % 10)];
  }

  function DigitChar(d: nat): char
    requires d < 10
  {
    "0123456789"[d]
  }

  /** Decimal digits, the most significant first. */
  lemma DigitsAre(n: nat)
    ensures Digits(n) == (if n < 10 then [] else Digits(n / 10)) + [DigitChar(n % 10)]
  {
    DigitCharIs(n % 10);
  }

  lemma DigitCharIs(d: nat)
    requires d < 10
    ensures DigitChar(d) == '0' + d as char
  {
  }

  /** Children follow U+001E with their number and an asterisk. */
  lemma WrittenIs(span: SemanticSpan, groups: seq<Group<Node>>, last: Group<Node>)
    ensures Written(Node(span, [])) == Head(span)
    ensures Written(Node(span, groups + [last])) ==
            Written(Node(span, groups)) + "\U{1e}" + Fingerprint.Digits(last.count) + "*" + Written(last.item)
  {
    hide Head, Digits, Written;
    WrittenNone();
    Fingerprint.WrittenIs(Node(span, []));
    Fingerprint.WrittenIs(Node(span, groups));
    Fingerprint.WrittenIs(Node(span, groups + [last]));
    WrittenAllConcat(groups, [last]);
    WrittenOne(last);
  }

  // ---- The order of siblings ----

  lemma {:induction false} QuotedOrder(x: string, y: string, u: string, v: string)
    requires Plain(x) && Plain(y)
    ensures AtMost(x + "\"" + u, y + "\"" + v) <==> Earlier(x, y) || (x == y && AtMost(u, v))
    decreases |x|
  {
    var a, b := x + "\"" + u, y + "\"" + v;
    hide Earlier;
    EarlierHeads(x, y);
    if x == "" || y == "" {
      assert x == "" ==> a == ['"'] + u && a[1..] == u;
      assert y == "" ==> b == ['"'] + v && b[1..] == v;
      assert x != "" ==> a[0] == x[0];
      assert y != "" ==> b[0] == y[0];
    } else {
      var c, d := x[1..], y[1..];
      assert x == [x[0]] + c && y == [y[0]] + d;
      assert a == [x[0]] + (c + "\"" + u) && b == [y[0]] + (d + "\"" + v);
      assert a[1..] == c + "\"" + u && b[1..] == d + "\"" + v;
      QuotedOrder(c, d, u, v);
      if x[0] == y[0] {
        EarlierTail(x[0], c, d);
      }
    }
  }

  lemma FieldOrder(x: string, y: string, u: string, v: string)
    requires Plain(x) && Plain(y)
    ensures AtMost(Debug(x) + [UNIT_SEPARATOR] + u, Debug(y) + [UNIT_SEPARATOR] + v) <==>
            Earlier(x, y) || (x == y && AtMost(u, v))
  {
    hide Escape, Earlier;
    PlainEscape(x);
    PlainEscape(y);
    var sep := [UNIT_SEPARATOR];
    var a, b := x + "\"" + (sep + u), y + "\"" + (sep + v);
    assert Debug(x) + sep + u == ['"'] + a && Debug(y) + sep + v == ['"'] + b;
    assert (['"'] + a)[1..] == a && (['"'] + b)[1..] == b;
    QuotedOrder(x, y, sep + u, sep + v);
    assert (sep + u)[1..] == u && (sep + v)[1..] == v;
  }

  /** By scope, then kind, then status, then name. */
  ghost predicate Before(a: SemanticSpan, b: SemanticSpan) {
    || Earlier(a.scope, b.scope)
    || (a.scope == b.scope &&
        (|| Earlier(a.kind, b.kind)
         || (a.kind == b.kind &&
             (|| Earlier(a.status, b.status)
              || (a.status == b.status && Earlier(a.name, b.name))))))
  }

  ghost predicate SameFields(a: SemanticSpan, b: SemanticSpan) {
    a.scope == b.scope && a.kind == b.kind && a.status == b.status && a.name == b.name
  }

  lemma HeadOrder(a: SemanticSpan, b: SemanticSpan, x: string, y: string)
    requires PlainSpan(a) && PlainSpan(b)
    ensures AtMost(Head(a) + x, Head(b) + y) <==>
            Before(a, b) || (SameFields(a, b) && AtMost(DebugStatus(a.httpStatus) + x, DebugStatus(b.httpStatus) + y))
  {
    hide Debug, DebugStatus, Earlier, AtMost, Plain;
    var sep := [UNIT_SEPARATOR];
    var a4, b4 := DebugStatus(a.httpStatus) + x, DebugStatus(b.httpStatus) + y;
    var a3, b3 := Debug(a.name) + sep + a4, Debug(b.name) + sep + b4;
    var a2, b2 := Debug(a.status) + sep + a3, Debug(b.status) + sep + b3;
    var a1, b1 := Debug(a.kind) + sep + a2, Debug(b.kind) + sep + b2;
    assert Head(a) + x == Debug(a.scope) + sep + a1;
    assert Head(b) + y == Debug(b.scope) + sep + b1;
    FieldOrder(a.scope, b.scope, a1, b1);
    FieldOrder(a.kind, b.kind, a2, b2);
    FieldOrder(a.status, b.status, a3, b3);
    FieldOrder(a.name, b.name, a4, b4);
  }

  /** Whatever stands below them, of two plain nodes that differ in these fields the one
      with the smaller fields has the smaller fingerprint. */
  lemma NodeOrder(a: Node, b: Node)
    requires PlainSpan(a.span) && PlainSpan(b.span)
    ensures !SameFields(a.span, b.span) ==> (AtMost(Written(a), Written(b)) <==> Before(a.span, b.span))
    ensures SameFields(a.span, b.span) && a.span.httpStatus.None? && b.span.httpStatus.Some? ==>
              AtMost(Written(a), Written(b)) && !AtMost(Written(b), Written(a))
  {
    hide Head, Earlier, Plain, WrittenAll, Written, Before, SameFields, DebugStatus, AtMost;
    Fingerprint.WrittenIs(a);
    Fingerprint.WrittenIs(b);
    HeadOrder(a.span, b.span, WrittenAll(a.children), WrittenAll(b.children));
    HeadOrder(b.span, a.span, WrittenAll(b.children), WrittenAll(a.children));
    SameIsNotBefore(a.span, b.span);
    NoneFirst(a.span.httpStatus, b.span.httpStatus, WrittenAll(a.children), WrittenAll(b.children));
  }

  lemma SameIsNotBefore(a: SemanticSpan, b: SemanticSpan)
    ensures SameFields(a, b) ==> SameFields(b, a) && !Before(a, b) && !Before(b, a)
  {
    hide Earlier;
    NotEarlier(a.scope);
    NotEarlier(a.kind);
    NotEarlier(a.status);
    NotEarlier(a.name);
  }

  lemma NoneFirst(a: Option<int>, b: Option<int>, x: string, y: string)
    ensures a.None? && b.Some? ==>
              AtMost(DebugStatus(a) + x, DebugStatus(b) + y) && !AtMost(DebugStatus(b) + y, DebugStatus(a) + x)
  {
    hide Signed;
    if a.None? && b.Some? {
      StatusStart(a, x);
      StatusStart(b, y);
    }
  }

  lemma {:induction false} RunsAscend<T>(s: seq<T>, key: T -> string)
    requires Ascending(s, key)
    ensures var groups := Runs(s, key);
            && (s != [] ==> groups != [] && key(groups[|groups| - 1].item) == key(s[|s| - 1]))
            && forall i, j :: 0 <= i < j < |groups| ==> AtMost(key(groups[i].item), key(groups[j].item))
    decreases |s|
  {
    hide AtMost, Runs;
    if s == [] {
      EmptyRuns(key);
    } else {
      var n := |s| - 1;
      RunsAscend(s[..n], key);
      RunsStep(s, key);
      var before := Runs(s[..n], key);
      if n > 0 {
        assert AtMost(key(s[n - 1]), key(s[n]));
        forall i | 0 <= i < |before|
          ensures AtMost(key(before[i].item), key(s[n]))
        {
          if i < |before| - 1 {
            Transitive(key(before[i].item), key(before[|before| - 1].item), key(s[n]));
          }
        }
      } else {
        assert s[..n] == [];
        EmptyRuns(key);
      }
    }
  }

  lemma OrderedNodes(a: Node, b: Node)
    requires PlainSpan(a.span) && PlainSpan(b.span) && AtMost(Written(a), Written(b))
    ensures !Before(b.span, a.span)
  {
    hide Written, Before, Plain, AtMost, SameFields;
    NodeOrder(a, b);
    SameIsNotBefore(a.span, b.span);
    NotBoth(a.span, b.span);
  }

  /** In a list of groups that the forest keeps, below a span or among the roots, no plain
      node stands after one with larger fields. */
  lemma GroupsInOrder(nodes: seq<Node>, i: nat, j: nat)
    requires i < j < |Gather(nodes, Written)|
    requires PlainSpan(Gather(nodes, Written)[i].item.span) && PlainSpan(Gather(nodes, Written)[j].item.span)
    ensures !Before(Gather(nodes, Written)[j].item.span, Gather(nodes, Written)[i].item.span)
  {
    hide Written, Before, PlainSpan, AtMost, Gather;
    GatheredAscend(nodes, Written, i, j);
    OrderedNodes(Gather(nodes, Written)[i].item, Gather(nodes, Written)[j].item);
  }

  lemma GatheredAscend<T>(items: seq<T>, key: T -> string, i: nat, j: nat)
    requires i < j < |Gather(items, key)|
    ensures AtMost(key(Gather(items, key)[i].item), key(Gather(items, key)[j].item))
  {
    hide AtMost, Runs;
    GatherIs(items, key);
    RunsAscend(SortBy(items, key), key);
  }

  lemma NotBoth(a: SemanticSpan, b: SemanticSpan)
    ensures !(Before(a, b) && Before(b, a))
  {
    hide Earlier;
    EarlierOneWay(a.scope, b.scope);
    EarlierOneWay(a.kind, b.kind);
    EarlierOneWay(a.status, b.status);
    EarlierOneWay(a.name, b.name);
  }

  lemma EarlierOneWay(a: string, b: string)
    ensures Earlier(a, b) ==> a != b && !Earlier(b, a)
  {
    if i: nat :| EarlierAt(a, b, i) {
      if j: nat :| EarlierAt(b, a, j) {
        if i < j {
          assert a[i] == b[i];
        } else if j < i {
          assert a[j] == b[j];
        }
      }
    }
  }

  /** The children of a node and the roots of a trace are such lists. */
  lemma KeptLists(index: Index, t: Tree)
    ensures Grouped(index, t, Written).children == Gather(GroupedAll(index, t.children, Written), Written)
    ensures var p := ParentsOf(index);
            TraceOf(index, Written).roots == Gather(GroupedAll(index, TreesOf(p, Roots(p), 128), Written), Written)
  {
  }

  /** Complete traces come first. */
  lemma CoverageOrder(a: Trace, b: Trace)
    requires a.coverage.Complete? && b.coverage.Partial?
    ensures AtMost(WrittenTrace(a), WrittenTrace(b)) && !AtMost(WrittenTrace(b), WrittenTrace(a))
  {
    hide WrittenAll;
    assert WrittenTrace(a)[0] == "complete"[0] && WrittenTrace(b)[0] == "partial"[0];
  }

  lemma CoverageText()
    ensures CoverageName(Complete) == "complete" && CoverageName(Partial) == "partial"
  {
  }

  // ---- Which spans form a forest ----

  predicate InTrace(spans: seq<RawSpan>, i: nat, traceId: string, spanId: string) {
    i < |spans| && spans[i].traceId == traceId && spans[i].spanId == spanId
  }

  predicate HasSpan(spans: seq<RawSpan>, traceId: string, spanId: string) {
    exists i :: 0 <= i < |spans| && InTrace(spans, i, traceId, spanId)
  }

  /** A way from a span over its parents, within the trace, to one that names no parent or a
      parent that was not captured. */
  ghost predicate Ascends(spans: seq<RawSpan>, path: seq<nat>) {
    && path != []
    && (forall k :: 0 <= k < |path| ==> path[k] < |spans|)
    && (forall k, l :: 0 <= k < |path| - 1 && l == k + 1 ==> IsParent(spans, path[k], path[l]))
    && var last := spans[path[|path| - 1]];
       last.parentId == "" || !HasSpan(spans, last.traceId, last.parentId)
  }

  predicate IsParent(spans: seq<RawSpan>, child: nat, parent: nat)
    requires child < |spans| && parent < |spans|
  {
    && spans[child].parentId != "" && spans[child].parentId == spans[parent].spanId
    && spans[child].traceId == spans[parent].traceId
  }

  ghost predicate AscendsWithin(spans: seq<RawSpan>, i: nat, limit: nat) {
    exists path :: Ascends(spans, path) && path[0] == i && |path| <= limit
  }

  /** No two spans of a trace share their ID. */
  ghost predicate OwnIds(spans: seq<RawSpan>) {
    forall i, j :: 0 <= i < j < |spans| && spans[i].traceId == spans[j].traceId ==> spans[i].spanId != spans[j].spanId
  }

  ghost predicate OneStart(spans: seq<RawSpan>) {
    forall i, j :: 0 <= i < j < |spans| && spans[i].traceId == spans[j].traceId ==>
      spans[i].parentId != "" || spans[j].parentId != ""
  }

  ghost predicate AllWithin(spans: seq<RawSpan>) {
    forall i :: 0 <= i < |spans| ==> AscendsWithin(spans, i, 128)
  }

  /** What the forest is built from: every span has IDs of its own, at most one span of a
      trace names no parent, and every span ascends over at most 128. */
  ghost predicate Buildable(spans: seq<RawSpan>) {
    && (forall i :: 0 <= i < |spans| ==> spans[i].traceId != "" && spans[i].spanId != "")
    && OwnIds(spans)
    && OneStart(spans)
    && AllWithin(spans)
  }

  lemma {:induction false} IndexAt(spans: seq<RawSpan>, i: nat)
    requires i < |spans| && forall j, k :: 0 <= j < k < |spans| ==> spans[j].spanId != spans[k].spanId
    ensures spans[i].spanId in IndexOf(spans) && IndexOf(spans)[spans[i].spanId] == spans[i]
    decreases |spans|
  {
    var n := |spans| - 1;
    IndexStep(spans);
    hide IndexOf;
    if i < n {
      IndexAt(spans[..n], i);
      assert spans[i].spanId != spans[n].spanId;
    }
  }

  lemma IndexStep(spans: seq<RawSpan>)
    requires spans != []
    ensures var n := |spans| - 1; IndexOf(spans) == IndexOf(spans[..n])[spans[n].spanId := spans[n]]
  {
  }

  lemma {:induction false} OneOfTrace(spans: seq<RawSpan>, id: string)
    requires OwnIds(spans)
    ensures var own := OfTrace(spans, id);
            && (forall s :: s in own <==> s in spans && s.traceId == id)
            && (forall i, j :: 0 <= i < j < |own| ==> own[i].spanId != own[j].spanId)
  {
    OfTraceHolds(spans, id);
    if spans != [] {
      var n := |spans| - 1;
      OneOfTrace(spans[..n], id);
      var before := OfTrace(spans[..n], id);
      forall s | s in before
        ensures spans[n].traceId == id ==> s.spanId != spans[n].spanId
      {
        assert s in spans[..n];
      }
    }
  }

  /** Looking a span up in the index of its trace. */
  lemma Lookup(spans: seq<RawSpan>, traceId: string, spanId: string)
    requires OwnIds(spans)
    ensures spanId in IndexIn(spans, traceId) <==> HasSpan(spans, traceId, spanId)
    ensures forall i: nat :: InTrace(spans, i, traceId, spanId) ==>
              spanId in IndexIn(spans, traceId) && IndexIn(spans, traceId)[spanId] == spans[i]
  {
    OneOfTrace(spans, traceId);
    var own := OfTrace(spans, traceId);
    forall i: nat | InTrace(spans, i, traceId, spanId)
      ensures spanId in IndexOf(own) && IndexOf(own)[spanId] == spans[i]
    {
      assert spans[i] in own;
      var k :| 0 <= k < |own| && own[k] == spans[i];
      IndexAt(own, k);
    }
    if spanId in IndexOf(own) {
      var k :| 0 <= k < |own| && own[k].spanId == spanId;
      assert own[k] in spans;
      var i :| 0 <= i < |spans| && spans[i] == own[k];
      assert InTrace(spans, i, traceId, spanId);
    }
  }

  lemma {:induction false} LevelIff(spans: seq<RawSpan>, i: nat, d: nat)
    requires OwnIds(spans) && i < |spans|
    ensures Level(ParentsOf(IndexIn(spans, spans[i].traceId)), spans[i].spanId, d) <==>
            exists path :: Ascends(spans, path) && path[0] == i && |path| == d + 1
    decreases d
  {
    if Level(ParentsOf(IndexIn(spans, spans[i].traceId)), spans[i].spanId, d) {
      var path := AscentOf(spans, i, d);
    }
    if path :| Ascends(spans, path) && path[0] == i && |path| == d + 1 {
      AscentLevel(spans, path);
    }
  }

  lemma ParentFacts(spans: seq<RawSpan>, i: nat)
    requires OwnIds(spans) && i < |spans|
    ensures var p := ParentsOf(IndexIn(spans, spans[i].traceId));
            && spans[i].spanId in p && p[spans[i].spanId] == spans[i].parentId
            && (HasParent(p, spans[i].spanId) <==>
                spans[i].parentId != "" && HasSpan(spans, spans[i].traceId, spans[i].parentId))
  {
    hide IndexIn, OwnIds;
    Lookup(spans, spans[i].traceId, spans[i].spanId);
    Lookup(spans, spans[i].traceId, spans[i].parentId);
    assert InTrace(spans, i, spans[i].traceId, spans[i].spanId);
  }

  lemma {:induction false} AscentOf(spans: seq<RawSpan>, i: nat, d: nat) returns (path: seq<nat>)
    requires OwnIds(spans) && i < |spans|
    requires Level(ParentsOf(IndexIn(spans, spans[i].traceId)), spans[i].spanId, d)
    ensures Ascends(spans, path) && path[0] == i && |path| == d + 1
    decreases d
  {
    hide ParentsOf, IndexIn, OwnIds;
    ParentFacts(spans, i);
    if d == 0 {
      path := [i];
    } else {
      var j :| 0 <= j < |spans| && InTrace(spans, j, spans[i].traceId, spans[i].parentId);
      var rest := AscentOf(spans, j, d - 1);
      path := [i] + rest;
      assert IsParent(spans, i, j);
      forall k, l | 0 <= k < |path| - 1 && l == k + 1
        ensures IsParent(spans, path[k], path[l])
      {
        if k > 0 {
          assert IsParent(spans, rest[k - 1], rest[l - 1]);
        }
      }
    }
  }

  lemma {:induction false} AscentLevel(spans: seq<RawSpan>, path: seq<nat>)
    requires OwnIds(spans) && Ascends(spans, path)
    ensures path[0] < |spans|
    ensures Level(ParentsOf(IndexIn(spans, spans[path[0]].traceId)), spans[path[0]].spanId, |path| - 1)
    decreases |path|
  {
    hide ParentsOf, IndexIn, OwnIds;
    ParentFacts(spans, path[0]);
    if |path| > 1 {
      var rest := path[1..];
      assert IsParent(spans, path[0], path[1]);
      assert InTrace(spans, path[1], spans[path[0]].traceId, spans[path[0]].parentId);
      forall k, l | 0 <= k < |rest| - 1 && l == k + 1
        ensures IsParent(spans, rest[k], rest[l])
      {
        assert IsParent(spans, path[k + 1], path[l + 1]);
      }
      AscentLevel(spans, rest);
    }
  }

  lemma WithinIff(spans: seq<RawSpan>, i: nat)
    requires OwnIds(spans) && i < |spans|
    ensures AscendsWithin(spans, i, 128) <==>
            exists d: nat :: d < 128 && Level(ParentsOf(IndexIn(spans, spans[i].traceId)), spans[i].spanId, d)
  {
    hide ParentsOf, IndexIn, OwnIds, HasSpan, IsParent, Level;
    if AscendsWithin(spans, i, 128) {
      var path :| Ascends(spans, path) && path[0] == i && |path| <= 128;
      LevelIff(spans, i, |path| - 1);
    }
    if d: nat :| d < 128 && Level(ParentsOf(IndexIn(spans, spans[i].traceId)), spans[i].spanId, d) {
      LevelIff(spans, i, d);
    }
  }

  /** The spans of one trace by ID, seen from the list. */
  ghost predicate TraceAscends(spans: seq<RawSpan>, id: string) {
    && (forall i, j :: 0 <= i < j < |spans| && spans[i].traceId == id && spans[j].traceId == id ==>
          spans[i].parentId != "" || spans[j].parentId != "")
    && (forall i :: 0 <= i < |spans| && spans[i].traceId == id ==> AscendsWithin(spans, i, 128))
  }

  lemma SpanOf(spans: seq<RawSpan>, id: string, spanId: string) returns (i: nat)
    requires OwnIds(spans) && spanId in IndexIn(spans, id)
    ensures InTrace(spans, i, id, spanId)
  {
    hide IndexIn, OwnIds;
    Lookup(spans, id, spanId);
    i :| 0 <= i < |spans| && InTrace(spans, i, id, spanId);
  }

  lemma RootsIff(spans: seq<RawSpan>, id: string)
    requires OwnIds(spans)
    ensures OneExplicitRoot(ParentsOf(IndexIn(spans, id))) <==>
            forall i, j :: 0 <= i < j < |spans| && spans[i].traceId == id && spans[j].traceId == id ==>
              spans[i].parentId != "" || spans[j].parentId != ""
  {
    hide IndexIn, ParentsOf;
    var p := ParentsOf(IndexIn(spans, id));
    forall i: nat | i < |spans| && spans[i].traceId == id
      ensures spans[i].spanId in p && p[spans[i].spanId] == spans[i].parentId
    {
      ParentFacts(spans, i);
    }
    if forall i, j :: 0 <= i < j < |spans| && spans[i].traceId == id && spans[j].traceId == id ==>
      spans[i].parentId != "" || spans[j].parentId != ""
    {
      forall a, b | a in p && b in p && p[a] == "" && p[b] == ""
        ensures a == b
      {
        var i := SpanOf(spans, id, a);
        var j := SpanOf(spans, id, b);
      }
    }
  }

  lemma TraceIff(spans: seq<RawSpan>, id: string)
    requires OwnIds(spans)
    ensures TraceAcceptable(ParentsOf(IndexIn(spans, id))) <==> TraceAscends(spans, id)
  {
    hide IndexIn, ParentsOf, OwnIds, Level, AscendsWithin, OneExplicitRoot;
    var p := ParentsOf(IndexIn(spans, id));
    RootsIff(spans, id);
    forall i: nat | i < |spans| && spans[i].traceId == id
      ensures spans[i].spanId in p
      ensures AscendsWithin(spans, i, 128) <==> exists d: nat :: d < 128 && Level(p, spans[i].spanId, d)
    {
      ParentFacts(spans, i);
      WithinIff(spans, i);
    }
    if TraceAscends(spans, id) {
      forall x | x in p
        ensures exists d: nat :: d < 128 && Level(p, x, d)
      {
        var i := SpanOf(spans, id, x);
      }
    }
  }

  /** The forest is built exactly from such spans. */
  lemma BuildableIff(spans: seq<RawSpan>)
    ensures Acceptable(spans) <==> Buildable(spans)
  {
    hide TraceAcceptable, IndexIn, TraceAscends, TraceIds, OneStart, AllWithin;
    IdentifiedIff(spans);
    if OwnIds(spans) {
      forall id
        ensures TraceAcceptable(ParentsOf(IndexIn(spans, id))) <==> TraceAscends(spans, id)
      {
        TraceIff(spans, id);
      }
      if forall id :: id in TraceIds(spans) ==> TraceAscends(spans, id) {
        AllAscend(spans);
      }
      if OneStart(spans) && AllWithin(spans) {
        forall id
          ensures TraceAscends(spans, id)
        {
          EachAscends(spans, id);
        }
      }
    }
  }

  lemma IdentifiedIff(spans: seq<RawSpan>)
    ensures Identified(spans) <==>
            (forall i :: 0 <= i < |spans| ==> spans[i].traceId != "" && spans[i].spanId != "") && OwnIds(spans)
  {
  }

  lemma AllAscend(spans: seq<RawSpan>)
    requires forall id :: id in TraceIds(spans) ==> TraceAscends(spans, id)
    ensures OneStart(spans) && AllWithin(spans)
  {
    hide AscendsWithin;
    forall i: nat | i < |spans|
      ensures AscendsWithin(spans, i, 128)
    {
      assert TraceAscends(spans, spans[i].traceId);
    }
    forall i, j | 0 <= i < j < |spans| && spans[i].traceId == spans[j].traceId
      ensures spans[i].parentId != "" || spans[j].parentId != ""
    {
      assert TraceAscends(spans, spans[i].traceId);
    }
  }

  lemma EachAscends(spans: seq<RawSpan>, id: string)
    requires OneStart(spans) && AllWithin(spans)
    ensures TraceAscends(spans, id)
  {
    hide AscendsWithin;
  }

  /** A trace is partial exactly when one of its spans names a parent that was not captured. */
  lemma CoverageIff(spans: seq<RawSpan>, id: string)
    requires OwnIds(spans)
    ensures TraceOf(IndexIn(spans, id), Written).coverage.Partial? <==>
            exists i :: 0 <= i < |spans| && spans[i].traceId == id && spans[i].parentId != "" &&
                        !HasSpan(spans, id, spans[i].parentId)
  {
    hide IndexIn, ParentsOf, OwnIds, HasSpan, Gather, TreesOf;
    var p := ParentsOf(IndexIn(spans, id));
    forall i: nat | i < |spans| && spans[i].traceId == id
      ensures spans[i].spanId in p && p[spans[i].spanId] == spans[i].parentId
      ensures HasSpan(spans, id, spans[i].parentId) <==> spans[i].parentId in p
    {
      ParentFacts(spans, i);
      Lookup(spans, id, spans[i].parentId);
      SameKeys(spans, id);
    }
    if ParentMissing(p) {
      var x :| x in p && p[x] != "" && p[x] !in p;
      var i := SpanOf(spans, id, x);
    }
  }

  lemma SameKeys(spans: seq<RawSpan>, id: string)
    ensures ParentsOf(IndexIn(spans, id)).Keys == IndexIn(spans, id).Keys
  {
  }

  // ---- Single chains ----

  predicate Names(p: Parents, child: string, parent: string) {
    child in p && p[child] == parent != ""
  }

  /** A way over parents to an ID with no parent, or none that is known. */
  ghost predicate Leads(p: Parents, path: seq<string>) {
    && path != []
    && (forall k :: 0 <= k < |path| ==> path[k] in p)
    && (forall k, l :: 0 <= k < |path| - 1 && l == k + 1 ==> Names(p, path[k], path[l]))
    && (p[path[|path| - 1]] == "" || p[path[|path| - 1]] !in p)
  }

  /** The check of one chain passes exactly when the ID is unknown or leads to such an end. */
  lemma ChainIff(p: Parents, id: string)
    ensures ChainEnds(p, id) <==> id !in p || exists path :: Leads(p, path) && path[0] == id
  {
    if id in p && HasLevel(p, id) {
      var d: nat :| Level(p, id, d);
      var path := LeadOf(p, id, d);
    }
    if path :| Leads(p, path) && path[0] == id {
      LeadLevel(p, path);
    }
  }

  lemma {:induction false} LeadOf(p: Parents, id: string, d: nat) returns (path: seq<string>)
    requires Level(p, id, d)
    ensures Leads(p, path) && path[0] == id
    decreases d
  {
    if d == 0 {
      path := [id];
    } else {
      var rest := LeadOf(p, p[id], d - 1);
      path := [id] + rest;
      forall k, l | 0 <= k < |path| - 1 && l == k + 1
        ensures Names(p, path[k], path[l])
      {
        if k > 0 {
          assert Names(p, rest[k - 1], rest[l - 1]);
        }
      }
    }
  }

  lemma {:induction false} LeadLevel(p: Parents, path: seq<string>)
    requires Leads(p, path)
    ensures HasLevel(p, path[0])
    decreases |path|
  {
    if |path| == 1 {
      assert Level(p, path[0], 0);
    } else {
      var rest := path[1..];
      assert Names(p, path[0], path[1]);
      forall k, l | 0 <= k < |rest| - 1 && l == k + 1
        ensures Names(p, rest[k], rest[l])
      {
        assert Names(p, path[k + 1], path[l + 1]);
      }
      LeadLevel(p, rest);
      var d: nat :| Level(p, path[1], d);
      assert Level(p, path[0], d + 1);
    }
  }
}
