/** The sink's link fixpoint and the stress checker's union-find, compared. */
module IdentityAgreement {
  import opened Basics
  import opened Wrappers
  import opened Spans
  import opened NativeIdentity
  import opened NativeIndex
  import opened StressIdentity

  /** Captures both programs can be asked about: no chunk is empty, no tag is the
      empty string, and the fields only the sink looks at are valid. */
  ghost predicate Comparable(input: seq<seq<Span>>) {
    forall i :: 0 <= i < |input| ==>
      && |input[i]| > 0
      && forall k :: 0 <= k < |input[i]| ==> input[i][k].otherFieldsValid && input[i][k].tid != Some("")
  }

  /** Around every untagged chunk, the component holds one tag at most and no span
      ID occurs in two of its chunks. */
  ghost predicate Clean(cs: seq<Chunk>) {
    forall i: nat {:trigger OneTag(cs, i)} :: i < |cs| && cs[i].high.None? ==>
      OneTag(cs, i) && NoSharedSpans(cs, i)
  }

  ghost predicate NoSharedSpans(cs: seq<Chunk>, i: nat) {
    forall j: nat, k: nat :: j < |cs| && k < |cs| && j != k && Connected(cs, i, j) && Connected(cs, i, k) ==>
      cs[j].low != cs[k].low || !SpansShared(cs[j].spans, cs[k].spans)
  }

  lemma SameDeclarations(input: seq<seq<Span>>)
    requires Comparable(input)
    ensures StressWellFormed(input) <==> WellFormed(input)
    ensures WellFormed(input) ==> Declared(input) == StressDeclared(input)
  {
    forall i | 0 <= i < |input|
      ensures ChunkTags(input[i]) == StressTags(input[i])
      ensures StressChunk(input[i]) <==> ValidChunk(input[i]) && exists high :: DeclaresTag(input[i], high)
    {
      SameTags(input[i]);
      var spans := input[i];
      forall high
        ensures DeclaresTag(spans, high) <==> StressDeclares(spans, high)
      {
      }
      if exists high :: StressDeclares(spans, high) {
        var high :| StressDeclares(spans, high);
        assert DeclaresTag(spans, high);
      }
      if exists high :: DeclaresTag(spans, high) {
        var high :| DeclaresTag(spans, high);
        assert StressDeclares(spans, high);
      }
    }
    if WellFormed(input) {
      forall i | 0 <= i < |input|
        ensures Declared(input)[i] == StressDeclared(input)[i]
      {
        assert DeclaresTag(input[i], StressDeclared(input)[i].high);
        DeclaredTagUnique(input[i], Declared(input)[i].high, StressDeclared(input)[i].high);
      }
    }
  }

  lemma SameTags(spans: seq<Span>)
    requires forall k :: 0 <= k < |spans| ==> spans[k].tid != Some("")
    ensures ChunkTags(spans) == StressTags(spans)
    ensures (forall k :: 0 <= k < |spans| ==> spans[k].otherFieldsValid) ==>
              forall k :: 0 <= k < |spans| ==> (StressValidSpan(spans[k]) <==> ValidSpan(spans[k]))
  {
    forall s | s in spans
      ensures HasTag(s) <==> s.tid.Some?
    {
      var k :| 0 <= k < |spans| && spans[k] == s;
    }
  }

  lemma TouchedTagInComponent(cs: seq<Chunk>, i: nat, t: Tag)
    requires Touches(cs, i, t)
    ensures i < |cs| && t in ComponentTags(cs, i)
  {
    var p :| TouchPath(cs, p, t) && p[0] == i;
    forall k | 0 <= k < |p| - 1
      ensures Related(cs, p[k], p[k + 1])
    {
      assert Linked(cs, p[k], p[k + 1]);
    }
    assert Walk(cs, p) && Connected(cs, i, p[|p| - 1]);
  }

  /** In a clean component, a walk from an untagged chunk to a tagged one uses
      parent links until the first tag it meets. */
  lemma {:induction false} WalkTouches(cs: seq<Chunk>, i: nat, p: seq<nat>, t: Tag)
    requires i < |cs| && OneTag(cs, i) && NoSharedSpans(cs, i) && t in ComponentTags(cs, i)
    requires Walk(cs, p) && Connected(cs, i, p[0]) && Untagged(cs, p[0]) && cs[p[|p| - 1]].high.Some?
    ensures Touches(cs, p[0], t)
    decreases |p|
  {
    var u, v := p[0], p[1];
    assert Related(cs, u, v);
    ConnectedStep(cs, u, v);
    ConnectedTrans(cs, i, u, v);
    var q := p[1..];
    forall k | 0 <= k < |q| - 1
      ensures Related(cs, q[k], q[k + 1])
    {
      assert Related(cs, p[k + 1], p[k + 1 + 1]);
    }
    if cs[v].high.None? {
      WalkTouches(cs, i, q, t);
      if u != v {
        assert Linked(cs, u, v);
        TouchThroughUntagged(cs, u, v, t);
      }
    } else {
      assert Linked(cs, u, v);
      assert cs[v].high.value in ComponentTags(cs, i);
      TouchThroughTagged(cs, u, v);
    }
  }

  lemma CleanSameTag(cs: seq<Chunk>, i: nat)
    requires Clean(cs) && i < |cs| && cs[i].high.None?
    ensures forall t :: Touches(cs, i, t) <==> t in ComponentTags(cs, i)
  {
    assert OneTag(cs, i);
    ConnectedRefl(cs, i);
    forall t
      ensures Touches(cs, i, t) <==> t in ComponentTags(cs, i)
    {
      if Touches(cs, i, t) {
        TouchedTagInComponent(cs, i, t);
      }
      if t in ComponentTags(cs, i) {
        var j :| 0 <= j < |cs| && cs[j].high.Some? && Connected(cs, i, j) && cs[j].high.value == t;
        var p :| Walk(cs, p) && p[0] == i && p[|p| - 1] == j;
        WalkTouches(cs, i, p, t);
      }
    }
  }

  lemma CleanSameResult(cs: seq<Chunk>)
    requires Clean(cs)
    ensures Unambiguous(cs) && StressUnambiguous(cs) && Resolve(cs) == StressResolve(cs)
  {
    forall i: nat, s, t | Touches(cs, i, s) && Touches(cs, i, t)
      ensures s == t
    {
      TouchedTagInComponent(cs, i, s);
      TouchedTagInComponent(cs, i, t);
      assert cs[i].high.None? ==> OneTag(cs, i);
      var p :| TouchPath(cs, p, s) && p[0] == i;
      assert Untagged(cs, p[0]);
    }
    forall i | 0 <= i < |cs|
      ensures ResolvedHigh(cs, i) == StressHigh(cs, i)
    {
      if cs[i].high.None? {
        CleanSameTag(cs, i);
        assert OneTag(cs, i);
      }
    }
  }

  /** Distinct identities leave no room for a shared span around an untagged chunk. */
  lemma AcceptedIsClean(cs: seq<Chunk>)
    requires StressUnambiguous(cs) && DistinctIdentities(StressResolve(cs))
    ensures Clean(cs)
  {
    var resolved := StressResolve(cs);
    forall i: nat | i < |cs| && cs[i].high.None?
      ensures OneTag(cs, i) && NoSharedSpans(cs, i)
    {
      assert OneTag(cs, i);
      forall j: nat, k: nat | j < |cs| && k < |cs| && j != k && Connected(cs, i, j) && Connected(cs, i, k) &&
                              cs[j].low == cs[k].low && SpansShared(cs[j].spans, cs[k].spans)
        ensures false
      {
        ComponentShares(cs, i, j);
        ComponentShares(cs, i, k);
        var a, b :| a in cs[j].spans && b in cs[k].spans && a.spanId == b.spanId;
        var m :| 0 <= m < |cs[j].spans| && cs[j].spans[m] == a;
        var n :| 0 <= n < |cs[k].spans| && cs[k].spans[n] == b;
        assert At(resolved, j, m, IdentityOf(resolved[j], m)) && At(resolved, k, n, IdentityOf(resolved[j], m));
      }
    }
  }

  /** Every chunk connected to an untagged one ends with that chunk's tag. */
  lemma ComponentShares(cs: seq<Chunk>, i: nat, j: nat)
    requires i < |cs| && j < |cs| && cs[i].high.None? && OneTag(cs, i) && Connected(cs, i, j)
    ensures StressHigh(cs, j) == StressHigh(cs, i)
  {
    ConnectedSymmetric(cs, i, j);
    forall t
      ensures t in ComponentTags(cs, i) <==> t in ComponentTags(cs, j)
    {
      if t in ComponentTags(cs, i) {
        var k :| 0 <= k < |cs| && cs[k].high.Some? && Connected(cs, i, k) && cs[k].high.value == t;
        ConnectedTrans(cs, j, i, k);
      }
      if t in ComponentTags(cs, j) {
        var k :| 0 <= k < |cs| && cs[k].high.Some? && Connected(cs, j, k) && cs[k].high.value == t;
        ConnectedTrans(cs, i, j, k);
      }
    }
    if cs[j].high.Some? {
      assert cs[j].high.value in ComponentTags(cs, i);
    }
  }

  /** On comparable captures the stress checker accepts exactly those the sink
      accepts whose untagged components are clean, and then both give every span
      the same identity. */
  lemma Agreement(input: seq<seq<Span>>)
    requires Comparable(input)
    ensures StressAccepts(input) <==> Accepts(input) && Clean(Declared(input))
    ensures StressAccepts(input) ==> Resolve(Declared(input)) == StressResolve(StressDeclared(input))
  {
    SameDeclarations(input);
    if WellFormed(input) {
      var cs := Declared(input);
      if StressAccepts(input) {
        AcceptedIsClean(cs);
      }
      if Clean(cs) {
        CleanSameResult(cs);
      }
    }
  }

  // ---- The sink accepts more: a second tag reached only through a tagged chunk ----

  function PlainSpan(spanId: nat, parentId: nat, tid: Option<string>): Span {
    Span(1, spanId, parentId, 1, 1, "query", "sql", tid, "", true)
  }

  const TAG_A: Tag := "000000000000000a"
  const TAG_B: Tag := "000000000000000b"

  /** An untagged chunk below a chunk tagged a, itself below a chunk tagged b. */
  function BridgedCapture(): seq<seq<Span>> {
    [[PlainSpan(1, 2, None)], [PlainSpan(2, 3, Some(TAG_A))], [PlainSpan(3, 0, Some(TAG_B))]]
  }

  function BridgedChunks(): seq<Chunk> {
    [Chunk(1, None, [PlainSpan(1, 2, None)]),
     Chunk(1, Some(TAG_A), [PlainSpan(2, 3, Some(TAG_A))]),
     Chunk(1, Some(TAG_B), [PlainSpan(3, 0, Some(TAG_B))])]
  }

  lemma BridgedDeclared()
    ensures Comparable(BridgedCapture()) && WellFormed(BridgedCapture())
    ensures Declared(BridgedCapture()) == BridgedChunks()
  {
    var input := BridgedCapture();
    assert Lower(TAG_A) == TAG_A && Lower(TAG_B) == TAG_B;
    forall i | 0 <= i < |input|
      ensures ValidChunk(input[i]) && DeclaresTag(input[i], BridgedChunks()[i].high)
    {
      assert ChunkTags(input[i]) == if i == 0 then {} else {BridgedChunks()[i].high.value} by {
        assert forall s :: s in input[i] <==> s == input[i][0];
        assert i > 0 ==> input[i][0] in input[i];
      }
    }
    forall i | 0 <= i < |input|
      ensures Declared(input)[i] == BridgedChunks()[i]
    {
      DeclaredTagUnique(input[i], Declared(input)[i].high, BridgedChunks()[i].high);
    }
  }

  lemma BridgedSpans()
    ensures var cs := BridgedChunks();
            forall i, s :: 0 <= i < 3 ==> (s in cs[i].spans <==> s == cs[i].spans[0])
  {
  }

  lemma TouchStopsAtTag(cs: seq<Chunk>, p: seq<nat>, t: Tag)
    requires TouchPath(cs, p, t) && cs[p[1]].high.Some?
    ensures |p| == 2
  {
    var second := p[1];
  }

  // The sink: the untagged chunk is linked to the chunk tagged a only.
  lemma SinkAcceptsBridge()
    ensures Unambiguous(BridgedChunks()) && DistinctIdentities(Resolve(BridgedChunks()))
  {
    var cs := BridgedChunks();
    BridgedSpans();
    forall i: nat, t | Touches(cs, i, t)
      ensures i == 0 && t == TAG_A
    {
      var p :| TouchPath(cs, p, t) && p[0] == i;
      assert Untagged(cs, p[0]) && Linked(cs, p[0], p[1]);
      assert p[1] == 1;
      TouchStopsAtTag(cs, p, t);
    }
    var resolved := Resolve(cs);
    forall id, i: nat, k: nat, j: nat, l: nat | At(resolved, i, k, id) && At(resolved, j, l, id)
      ensures i == j && k == l
    {
      assert id.span == i + 1 == j + 1;
    }
  }

  // The stress checker: all three chunks form one component with two tags.
  lemma StressRejectsBridge()
    ensures !StressUnambiguous(BridgedChunks())
  {
    var cs := BridgedChunks();
    BridgedSpans();
    assert cs[0].spans[0].parentId == cs[1].spans[0].spanId && cs[1].spans[0].parentId == cs[2].spans[0].spanId;
    assert SpansLinked(cs[0].spans, cs[1].spans) && SpansLinked(cs[1].spans, cs[2].spans);
    ConnectedStep(cs, 0, 1);
    ConnectedStep(cs, 1, 2);
    ConnectedTrans(cs, 0, 1, 2);
    assert TAG_A[15] != TAG_B[15];
    assert cs[1].high.value in ComponentTags(cs, 0) && cs[2].high.value in ComponentTags(cs, 0);
    assert !OneTag(cs, 0);
  }

  lemma BridgeSplitsTheVerdict()
    ensures Accepts(BridgedCapture()) && !StressAccepts(BridgedCapture())
  {
    BridgedDeclared();
    SinkAcceptsBridge();
    StressRejectsBridge();
    SameDeclarations(BridgedCapture());
  }
}
