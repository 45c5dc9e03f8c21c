/** The written fingerprint of a node, which never closes a list of children, and a
    bracketed one, which does. */
module Fingerprint {
  import opened Wrappers
  import opened Ordering
  import opened TraceForest

  const UNIT_SEPARATOR: char := '\U{1f}'
  const RECORD_SEPARATOR: char := '\U{1e}'
  const GROUP_SEPARATOR: char := '\U{1d}'

  // ---- Rendering ----

  function HexDigit(n: nat): char
    requires n < 16
  {
    if n < 10 then '0' + n as char else 'a' + (n - 10) as char
  }

  function Hex(n: nat): string
    requires n < 256
  {
    if n < 16 then [HexDigit(n)] else [HexDigit(n / 16), HexDigit(n % 16)]
  }

  /** The debug form of one character of a text. */
  function EscapeChar(c: char): (r: string)
    ensures r != "" && r[0] != '"'
  {
    if c == '"' then "\\\""
    else if c == '\\' then "\\\\"
    else if c == '\n' then "\\n"
    else if c == '\r' then "\\r"
    else if c == '\t' then "\\t"
    else if c == '\0' then "\\0"
    else if c < ' ' || c == '\U{7f}' then "\\u{" + Hex(c as nat) + "}"
    else [c]
  }

  function Escape(s: string): string {
    if s == "" then "" else EscapeChar(s[0]) + Escape(s[1..])
  }

  function Debug(s: string): string {
    "\"" + Escape(s) + "\""
  }

  function Digits(n: nat): (r: string)
    ensures r != "" && forall i :: 0 <= i < |r| ==> '0' <= r[i] <= '9'
  {
    if n < 10 then ['0' + n as char] else Digits(n / 10) + ['0' + (n % 10) as char]
  }

  function Signed(n: int): string {
    if n < 0 then "-" + Digits(-n) else Digits(n)
  }

  function DebugStatus(status: Option<int>): string {
    if status.None? then "None" else "Some(" + Signed(status.value) + ")"
  }

  function Head(s: SemanticSpan): string {
    Debug(s.scope) + [UNIT_SEPARATOR] + (Debug(s.kind) + [UNIT_SEPARATOR] + (Debug(s.status) + [UNIT_SEPARATOR] +
    (Debug(s.name) + [UNIT_SEPARATOR] + DebugStatus(s.httpStatus))))
  }

  function Count(n: nat): string {
    [RECORD_SEPARATOR] + Digits(n) + "*"
  }

  // ---- The written fingerprint ----

  function Written(n: Node): string {
    Head(n.span) + WrittenAll(n.children)
  }

  function WrittenAll(groups: seq<Group<Node>>): string {
    if groups == [] then ""
    else
      var last := groups[|groups| - 1];
      assert last.item < last;
      WrittenAll(groups[..|groups| - 1]) + (Count(last.count) + Written(last.item))
  }

  function CoverageName(c: Coverage): string {
    if c.Complete? then "complete" else "partial"
  }

  function WrittenTrace(t: Trace): string {
    CoverageName(t.coverage) + WrittenAll(t.roots)
  }

  lemma {:induction false} WrittenAllConcat(a: seq<Group<Node>>, b: seq<Group<Node>>)
    ensures WrittenAll(a + b) == WrittenAll(a) + WrittenAll(b)
  {
    hide Written, Count;
    if b == [] {
      assert a + b == a;
    } else {
      var n := |b| - 1;
      WrittenAllConcat(a, b[..n]);
      assert (a + b)[..|a + b| - 1] == a + b[..n];
    }
  }

  lemma WrittenOne(g: Group<Node>)
    ensures WrittenAll([g]) == Count(g.count) + Written(g.item)
  {
    hide Written, Count;
    assert [g][..0] == [];
  }

  /** The children of the last child read like further siblings of it, so the two nodes
      have the same written fingerprint. */
  lemma GrandchildrenReadAsChildren(span: SemanticSpan, before: seq<Group<Node>>, count: nat, child: SemanticSpan,
                                    below: seq<Group<Node>>)
    ensures Written(Node(span, before + [Group(count, Node(child, below))])) ==
            Written(Node(span, before + [Group(count, Node(child, []))] + below))
  {
    hide Head, Count, WrittenAll, Written;
    var deep, flat := Group(count, Node(child, below)), Group(count, Node(child, []));
    WrittenIs(Node(span, before + [deep]));
    WrittenIs(Node(span, before + [flat] + below));
    WrittenIs(deep.item);
    WrittenIs(flat.item);
    WrittenAllConcat(before, [deep]);
    WrittenAllConcat(before + [flat], below);
    WrittenAllConcat(before, [flat]);
    WrittenOne(deep);
    WrittenOne(flat);
    WrittenNone();
  }

  lemma WrittenIs(n: Node)
    ensures Written(n) == Head(n.span) + WrittenAll(n.children)
  {
  }

  lemma WrittenNone()
    ensures WrittenAll([]) == ""
  {
  }

  // ---- A bracketed fingerprint ----

  function Bracketed(n: Node): string {
    Head(n.span) + BracketedAll(n.children)
  }

  function BracketedAll(groups: seq<Group<Node>>): string {
    if groups == [] then [GROUP_SEPARATOR]
    else
      var first := groups[0];
      assert first.item < first;
      Count(first.count) + (Bracketed(first.item) + BracketedAll(groups[1..]))
  }

  function BracketedTrace(t: Trace): string {
    CoverageName(t.coverage) + BracketedAll(t.roots)
  }

  const WRITTEN := Keys(Written, WrittenTrace)
  const BRACKETED := Keys(Bracketed, BracketedTrace)

  // ---- Every piece of a rendering ends itself ----

  lemma UpToMark(a: string, b: string, mark: char, x: string, y: string)
    requires a + [mark] + x == b + [mark] + y && mark !in a && mark !in b
    ensures a == b && x == y
  {
    var s := a + [mark] + x;
    assert s[|a|] == mark && forall i :: 0 <= i < |a| ==> s[i] == a[i];
    assert s[|b|] == mark && forall i :: 0 <= i < |b| ==> s[i] == b[i];
    assert |a| == |b|;
    assert a == s[..|a|] && b == s[..|a|];
    assert x == s[|a| + 1..] && y == s[|a| + 1..];
  }

  lemma AfterSame(a: string, x: string, y: string)
    requires a + x == a + y
    ensures x == y
  {
    assert x == (a + x)[|a|..] && y == (a + y)[|a|..];
  }

  lemma {:induction false} DigitsInjective(m: nat, n: nat)
    requires Digits(m) == Digits(n)
    ensures m == n
    decreases m
  {
    var s := Digits(m);
    if m >= 10 && n >= 10 {
      assert Digits(m / 10) == s[..|s| - 1] == Digits(n / 10);
      assert s[|s| - 1] == '0' + (m % 10) as char == '0' + (n % 10) as char;
      DigitsInjective(m / 10, n / 10);
    }
  }

  lemma CountEnds(m: nat, n: nat, x: string, y: string)
    requires Count(m) + x == Count(n) + y
    ensures m == n && x == y
  {
    var s, t := Digits(m) + ['*'] + x, Digits(n) + ['*'] + y;
    assert Count(m) + x == [RECORD_SEPARATOR] + s && Count(n) + y == [RECORD_SEPARATOR] + t;
    AfterSame([RECORD_SEPARATOR], s, t);
    UpToMark(Digits(m), Digits(n), '*', x, y);
    DigitsInjective(m, n);
  }

  lemma StatusEnds(a: Option<int>, b: Option<int>, x: string, y: string)
    requires DebugStatus(a) + x == DebugStatus(b) + y
    ensures a == b && x == y
  {
    hide Signed;
    var s := DebugStatus(a) + x;
    StatusStart(a, x);
    StatusStart(b, y);
    if a.None? {
      AfterSame("None", x, y);
    } else {
      var m, n := Signed(a.value), Signed(b.value);
      AfterSame("Some(", m + [')'] + x, n + [')'] + y);
      SignedPlain(a.value);
      SignedPlain(b.value);
      UpToMark(m, n, ')', x, y);
      SignedInjective(a.value, b.value);
    }
  }

  lemma StatusStart(a: Option<int>, x: string)
    ensures var s := DebugStatus(a) + x;
            && (a.None? ==> s == "None" + x && s[0] == 'N')
            && (a.Some? ==> s == "Some(" + (Signed(a.value) + [')'] + x) && s[0] == 'S')
  {
    hide Signed;
  }

  lemma SignedPlain(n: int)
    ensures Signed(n)[0] == '-' <==> n < 0
    ensures ')' !in Signed(n)
  {
  }

  lemma SignedInjective(m: int, n: int)
    requires Signed(m) == Signed(n)
    ensures m == n
  {
    SignedPlain(m);
    SignedPlain(n);
    if m < 0 {
      AfterSame("-", Digits(-m), Digits(-n));
      DigitsInjective(-m, -n);
    } else {
      DigitsInjective(m, n);
    }
  }

  lemma EscapeCharEnds(c: char, d: char, x: string, y: string)
    requires EscapeChar(c) + x == EscapeChar(d) + y
    ensures c == d && x == y
  {
    var a, b := EscapeChar(c), EscapeChar(d);
    var s := a + x;
    assert s[0] == a[0] == b[0];
    if a[0] == '\\' {
      assert s[1] == a[1] == b[1];
      if a[1] == 'u' {
        var m, n := Hex(c as nat), Hex(d as nat);
        assert s == "\\u{" + (m + ['}'] + x) && s == "\\u{" + (n + ['}'] + y);
        AfterSame("\\u{", m + ['}'] + x, n + ['}'] + y);
        UpToMark(m, n, '}', x, y);
      }
    }
    assert c == d;
    AfterSame(a, x, y);
  }

  lemma EscapeStart(a: string, x: string)
    ensures var s := Escape(a) + ("\"" + x);
            && (s[0] == '"' <==> a == "")
            && (a == "" ==> s == "\"" + x)
            && (a != "" ==> s == EscapeChar(a[0]) + (Escape(a[1..]) + ("\"" + x)))
  {
    hide EscapeChar;
    if a != "" {
      EscapeNext(EscapeChar(a[0]), Escape(a[1..]), "\"" + x);
    }
  }

  lemma EscapeNext(a: string, b: string, c: string)
    ensures a + b + c == a + (b + c)
  {
  }

  lemma {:induction false} EscapeEnds(a: string, b: string, x: string, y: string)
    requires Escape(a) + ("\"" + x) == Escape(b) + ("\"" + y)
    ensures a == b && x == y
  {
    hide EscapeChar, Escape;
    EscapeStart(a, x);
    EscapeStart(b, y);
    if a == "" {
      AfterSame("\"", x, y);
    } else {
      var u, v := Escape(a[1..]) + ("\"" + x), Escape(b[1..]) + ("\"" + y);
      EscapeCharEnds(a[0], b[0], u, v);
      EscapeEnds(a[1..], b[1..], x, y);
      assert a == [a[0]] + a[1..] && b == [b[0]] + b[1..];
    }
  }

  lemma DebugEnds(a: string, b: string, x: string, y: string)
    requires Debug(a) + x == Debug(b) + y
    ensures a == b && x == y
  {
    hide Escape;
    var s, t := Escape(a) + ("\"" + x), Escape(b) + ("\"" + y);
    assert Debug(a) + x == "\"" + s && Debug(b) + y == "\"" + t;
    AfterSame("\"", s, t);
    EscapeEnds(a, b, x, y);
  }

  lemma FieldEnds(a: string, b: string, x: string, y: string)
    requires Debug(a) + [UNIT_SEPARATOR] + x == Debug(b) + [UNIT_SEPARATOR] + y
    ensures a == b && x == y
  {
    hide Debug;
    assert Debug(a) + [UNIT_SEPARATOR] + x == Debug(a) + ([UNIT_SEPARATOR] + x);
    assert Debug(b) + [UNIT_SEPARATOR] + y == Debug(b) + ([UNIT_SEPARATOR] + y);
    DebugEnds(a, b, [UNIT_SEPARATOR] + x, [UNIT_SEPARATOR] + y);
    AfterSame([UNIT_SEPARATOR], x, y);
  }

  lemma HeadEnds(a: SemanticSpan, b: SemanticSpan, x: string, y: string)
    requires Head(a) + x == Head(b) + y
    ensures a == b && x == y
  {
    hide Debug, DebugStatus;
    var sep := [UNIT_SEPARATOR];
    var a4, b4 := DebugStatus(a.httpStatus) + x, DebugStatus(b.httpStatus) + y;
    var a3, b3 := Debug(a.name) + sep + a4, Debug(b.name) + sep + b4;
    var a2, b2 := Debug(a.status) + sep + a3, Debug(b.status) + sep + b3;
    var a1, b1 := Debug(a.kind) + sep + a2, Debug(b.kind) + sep + b2;
    assert Head(a) + x == Debug(a.scope) + sep + a1;
    assert Head(b) + y == Debug(b.scope) + sep + b1;
    FieldEnds(a.scope, b.scope, a1, b1);
    FieldEnds(a.kind, b.kind, a2, b2);
    FieldEnds(a.status, b.status, a3, b3);
    FieldEnds(a.name, b.name, a4, b4);
    StatusEnds(a.httpStatus, b.httpStatus, x, y);
  }

  lemma BracketedStart(a: seq<Group<Node>>, x: string)
    ensures (BracketedAll(a) + x)[0] == GROUP_SEPARATOR <==> a == []
  {
    hide Bracketed, Digits;
  }

  lemma {:induction false} BracketedEnds(a: Node, b: Node, x: string, y: string)
    requires Bracketed(a) + x == Bracketed(b) + y
    ensures a == b && x == y
    decreases a, 1
  {
    hide Head, BracketedAll;
    var s, t := BracketedAll(a.children) + x, BracketedAll(b.children) + y;
    assert Bracketed(a) + x == Head(a.span) + s && Bracketed(b) + y == Head(b.span) + t;
    HeadEnds(a.span, b.span, s, t);
    BracketedAllEnds(a.children, b.children, x, y);
  }

  lemma {:induction false} BracketedAllEnds(a: seq<Group<Node>>, b: seq<Group<Node>>, x: string, y: string)
    requires BracketedAll(a) + x == BracketedAll(b) + y
    ensures a == b && x == y
    decreases a, 0
  {
    hide Bracketed, Digits;
    var s := BracketedAll(a) + x;
    BracketedStart(a, x);
    BracketedStart(b, y);
    if a == [] {
      AfterSame([GROUP_SEPARATOR], x, y);
    } else {
      var u, v := BracketedAll(a[1..]) + x, BracketedAll(b[1..]) + y;
      assert s == Count(a[0].count) + (Bracketed(a[0].item) + u);
      assert s == Count(b[0].count) + (Bracketed(b[0].item) + v);
      CountEnds(a[0].count, b[0].count, Bracketed(a[0].item) + u, Bracketed(b[0].item) + v);
      assert a[0].item < a[0];
      BracketedEnds(a[0].item, b[0].item, u, v);
      BracketedAllEnds(a[1..], b[1..], x, y);
      assert a == [a[0]] + a[1..] && b == [b[0]] + b[1..];
    }
  }

  /** Nodes with the same bracketed fingerprint are the same node. */
  lemma BracketedSeparatesNodes(a: Node, b: Node)
    requires Bracketed(a) == Bracketed(b)
    ensures a == b
  {
    hide Bracketed;
    assert Bracketed(a) + "" == Bracketed(b) + "";
    BracketedEnds(a, b, "", "");
  }

  lemma BracketedSeparatesTraces(a: Trace, b: Trace)
    requires BracketedTrace(a) == BracketedTrace(b)
    ensures a == b
  {
    var s := BracketedTrace(a);
    assert s[0] == CoverageName(a.coverage)[0] == CoverageName(b.coverage)[0];
    AfterSame(CoverageName(a.coverage), BracketedAll(a.roots), BracketedAll(b.roots));
    assert BracketedAll(a.roots) + "" == BracketedAll(b.roots) + "";
    BracketedAllEnds(a.roots, b.roots, "", "");
  }

  // ---- What the written fingerprint tells apart ----

  /** The groups below a node in the order of writing: a group, then all below it, then the
      next group. Where the list of children of a node ends is not part of it. */
  function Listing(groups: seq<Group<Node>>): seq<(nat, SemanticSpan)> {
    if groups == [] then []
    else
      var last := groups[|groups| - 1];
      assert last.item < last;
      Listing(groups[..|groups| - 1]) + ([(last.count, last.item.span)] + Listing(last.item.children))
  }

  function ListingText(l: seq<(nat, SemanticSpan)>): string {
    if l == [] then "" else Count(l[0].0) + (Head(l[0].1) + ListingText(l[1..]))
  }

  lemma {:induction false} ListingTextConcat(a: seq<(nat, SemanticSpan)>, b: seq<(nat, SemanticSpan)>)
    ensures ListingText(a + b) == ListingText(a) + ListingText(b)
  {
    hide Head, Count;
    if a == [] {
      assert a + b == b;
    } else {
      ListingTextConcat(a[1..], b);
      assert (a + b)[1..] == a[1..] + b;
      var count, head, below, rest := Count(a[0].0), Head(a[0].1), ListingText(a[1..]), ListingText(b);
      assert count + (head + (below + rest)) == count + (head + below) + rest;
    }
  }

  lemma ListingTextOne(count: nat, span: SemanticSpan)
    ensures ListingText([(count, span)]) == Count(count) + Head(span)
  {
    hide Head, Count;
    var one := [(count, span)];
    assert ListingText(one[1..]) == "";
    assert Head(span) + "" == Head(span);
  }

  lemma WrittenLast(groups: seq<Group<Node>>)
    requires groups != []
    ensures var n, last := |groups| - 1, groups[|groups| - 1];
            WrittenAll(groups) ==
            WrittenAll(groups[..n]) + (Count(last.count) + (Head(last.item.span) + WrittenAll(last.item.children)))
  {
    hide Head, Count;
  }

  lemma ListingLast(groups: seq<Group<Node>>)
    requires groups != []
    ensures var n, last := |groups| - 1, groups[|groups| - 1];
            Listing(groups) == Listing(groups[..n]) + ([(last.count, last.item.span)] + Listing(last.item.children))
  {
  }

  /** The written text of a list of groups is that of its listing. */
  lemma {:induction false} WrittenIsListing(groups: seq<Group<Node>>)
    ensures WrittenAll(groups) == ListingText(Listing(groups))
  {
    hide Head, Count, ListingText, Listing, WrittenAll;
    if groups == [] {
      NoListing();
    } else {
      var n, last := |groups| - 1, groups[|groups| - 1];
      assert last.item < last;
      WrittenIsListing(groups[..n]);
      WrittenIsListing(last.item.children);
      WrittenLast(groups);
      ListingLast(groups);
      ListingTextConcat(Listing(groups[..n]), [(last.count, last.item.span)] + Listing(last.item.children));
      ListingTextConcat([(last.count, last.item.span)], Listing(last.item.children));
      ListingTextOne(last.count, last.item.span);
      EscapeNext(Count(last.count), Head(last.item.span), WrittenAll(last.item.children));
    }
  }

  lemma NoListing()
    ensures WrittenAll([]) == "" && Listing([]) == [] && ListingText([]) == ""
  {
  }

  lemma {:induction false} ListingTextInjective(a: seq<(nat, SemanticSpan)>, b: seq<(nat, SemanticSpan)>)
    requires ListingText(a) == ListingText(b)
    ensures a == b
  {
    hide Head, Digits;
    if a != [] && b != [] {
      var x, y := Head(a[0].1) + ListingText(a[1..]), Head(b[0].1) + ListingText(b[1..]);
      CountEnds(a[0].0, b[0].0, x, y);
      HeadEnds(a[0].1, b[0].1, ListingText(a[1..]), ListingText(b[1..]));
      ListingTextInjective(a[1..], b[1..]);
      assert a == [a[0]] + a[1..] && b == [b[0]] + b[1..];
    }
  }

  /** Two nodes have the same written fingerprint exactly when their spans are equal and
      the groups below them are written in the same order. */
  lemma WrittenCollides(a: Node, b: Node)
    ensures Written(a) == Written(b) <==> a.span == b.span && Listing(a.children) == Listing(b.children)
  {
    hide Head, WrittenAll, Written, Listing, ListingText;
    WrittenIs(a);
    WrittenIs(b);
    WrittenIsListing(a.children);
    WrittenIsListing(b.children);
    if Written(a) == Written(b) {
      HeadEnds(a.span, b.span, WrittenAll(a.children), WrittenAll(b.children));
      ListingTextInjective(Listing(a.children), Listing(b.children));
    }
  }

  /** The same for traces: the fingerprints agree exactly when coverage and listing do. */
  lemma WrittenTraceCollides(a: Trace, b: Trace)
    ensures WrittenTrace(a) == WrittenTrace(b) <==> a.coverage == b.coverage && Listing(a.roots) == Listing(b.roots)
  {
    hide WrittenAll, Listing, ListingText;
    WrittenIsListing(a.roots);
    WrittenIsListing(b.roots);
    if WrittenTrace(a) == WrittenTrace(b) {
      var s := WrittenTrace(a);
      assert s[0] == CoverageName(a.coverage)[0] == CoverageName(b.coverage)[0];
      AfterSame(CoverageName(a.coverage), WrittenAll(a.roots), WrittenAll(b.roots));
      ListingTextInjective(Listing(a.roots), Listing(b.roots));
    }
  }
}
