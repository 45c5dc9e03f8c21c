/** The stress checker from the decoded chunks to the verdict. */
module StressCheck {
  import opened Spans
  import opened StressIdentity
  import opened Ownership
  import opened StressValidation

  /** The chunks are accepted and this is the map of their spans by identity. */
  ghost predicate Captured(input: seq<seq<Span>>, spans: Capture) {
    StressAccepts(input) && Recorded(StressResolve(StressDeclared(input)), spans)
  }

  lemma CapturedOnce(input: seq<seq<Span>>, a: Capture, b: Capture)
    requires Captured(input, a) && Captured(input, b)
    ensures a == b
  {
    hide StressWellFormed, StressUnambiguous, StressResolve, At, DistinctIdentities;
    var cs := StressResolve(StressDeclared(input));
    forall id
      ensures id in a <==> id in b
      ensures id in a ==> a[id] == b[id]
    {
      if id in a {
        var i: nat, k: nat :| At(cs, i, k, id);
      }
      if id in b {
        var i: nat, k: nat :| At(cs, i, k, id);
      }
    }
  }

  /** The verdict on a list of chunks, whatever the orders of the two map iterations. */
  method ValidateStress(input: seq<seq<Span>>, ledger: seq<Request>, checks: Checks,
                        serverOrder: seq<Identity>, ownerOrder: seq<Identity>)
    returns (ok: bool)
    requires forall spans :: Captured(input, spans) ==> IsOrder(spans, serverOrder) && IsOrder(spans, ownerOrder)
    ensures ok <==> exists spans ::
                      Captured(input, spans) && CaptureMatches(spans, ledger, checks) &&
                        OrderAccepted(spans, ownerOrder)
  {
    hide StressWellFormed, StressUnambiguous, DistinctIdentities, StressResolve, Recorded, CaptureMatches,
         OrderAccepted, IsOrder;
    var index := StressIndex(input);
    if index.Err? {
      return false;
    }
    assert Captured(input, index.value);
    ok := Validate(index.value, ledger, checks, serverOrder, ownerOrder);
    forall spans | Captured(input, spans)
      ensures spans == index.value
    {
      CapturedOnce(input, spans, index.value);
    }
  }

  /** The identity under which a span of the list is captured. */
  ghost predicate CapturedAt(input: seq<seq<Span>>, i: nat, k: nat, spans: Capture, key: Identity) {
    && i < |input| && k < |input[i]| && key in spans && spans[key] == input[i][k]
    && key.span == input[i][k].spanId && key.low == input[i][k].traceId
  }

  lemma SpanCaptured(input: seq<seq<Span>>, spans: Capture, i: nat, k: nat) returns (key: Identity)
    requires Captured(input, spans) && i < |input| && k < |input[i]|
    ensures CapturedAt(input, i, k, spans, key) && At(StressResolve(StressDeclared(input)), i, k, key)
  {
    var cs := StressResolve(StressDeclared(input));
    assert cs[i].spans == input[i] && cs[i].low == StressLow(input[i]);
    key := IdentityOf(cs[i], k);
    assert At(cs, i, k, key);
    assert StressLow(input[i]) == input[i][k].traceId;
  }

  lemma CapturedApart(input: seq<seq<Span>>, spans: Capture, i: nat, k: nat, j: nat, l: nat, key: Identity)
    requires Captured(input, spans)
    requires At(StressResolve(StressDeclared(input)), i, k, key) && At(StressResolve(StressDeclared(input)), j, l, key)
    ensures i == j && k == l
  {
    hide StressWellFormed, StressUnambiguous, StressResolve, At;
  }

  /** In an accepted list of chunks every span of every chunk is captured under an identity
      of its own, its chain ends at exactly one server span, and the ledger lists that
      server's request exactly once. */
  lemma EveryListedSpanHasOneRequest(input: seq<seq<Span>>, ledger: seq<Request>, checks: Checks, order: seq<Identity>,
                                     spans: Capture, i: nat, k: nat)
    returns (key: Identity, entry: nat)
    requires Captured(input, spans) && IsOrder(spans, order)
    requires CaptureMatches(spans, ledger, checks) && OrderAccepted(spans, order)
    requires i < |input| && k < |input[i]|
    ensures CapturedAt(input, i, k, spans, key)
    ensures forall j: nat, l: nat {:trigger At(StressResolve(StressDeclared(input)), j, l, key)} ::
              At(StressResolve(StressDeclared(input)), j, l, key) ==> j == i && l == k
    ensures Owned(spans, key) && ServerAt(spans, ServerOf(spans, key))
    ensures forall s :: s in Chain(spans, key) && ServerAt(spans, s) ==> s == ServerOf(spans, key)
    ensures entry < |ledger| && ledger[entry].id == OwnerId(spans, key)
    ensures forall j :: 0 <= j < |ledger| && ledger[j].id == OwnerId(spans, key) ==> j == entry
  {
    hide StressWellFormed, StressUnambiguous, DistinctIdentities, StressResolve, Recorded, CaptureMatches,
         OrderAccepted, IsOrder, At;
    key := SpanCaptured(input, spans, i, k);
    entry := EverySpanHasOneRequest(spans, ledger, checks, order, key);
    forall j: nat, l: nat | At(StressResolve(StressDeclared(input)), j, l, key)
      ensures j == i && l == k
    {
      CapturedApart(input, spans, i, k, j, l, key);
    }
  }
}
