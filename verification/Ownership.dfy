/** Which request owns a captured span: the memoised climb to its server span. */
module Ownership {
  import opened Wrappers
  import opened Spans

  type Capture = map<Identity, Span>

  const MAX_VISITING: nat := 64

  datatype OwnerError = CyclicOrDeep | MissingParent | UnexpectedRoot

  predicate IsServer(s: Span) {
    s.name == "aiohttp.request" || s.name == "django.request" || s.name == "rack.request" ||
    s.name == "gin.request" || s.name == "http.request"
  }

  function ParentKey(key: Identity, s: Span): Identity {
    Identity(key.low, key.high, s.parentId)
  }

  // ---- Chains ----

  /** n parent steps through captured non-server spans lead from key to a server. */
  ghost predicate OwnedAt(spans: Capture, key: Identity, n: nat, server: Identity)
    decreases n
  {
    key in spans &&
    if IsServer(spans[key]) then n == 0 && server == key
    else n > 0 && spans[key].parentId != 0 && OwnedAt(spans, ParentKey(key, spans[key]), n - 1, server)
  }

  ghost predicate Owned(spans: Capture, key: Identity) {
    exists n, server :: OwnedAt(spans, key, n, server)
  }

  ghost predicate OwnerIs(spans: Capture, key: Identity, id: string) {
    exists n, server :: OwnedAt(spans, key, n, server) && server in spans && spans[server].requestId == id
  }

  ghost function Distance(spans: Capture, key: Identity): nat
    requires Owned(spans, key)
  {
    var n, server :| OwnedAt(spans, key, n, server); n
  }

  ghost function ServerOf(spans: Capture, key: Identity): Identity
    requires Owned(spans, key)
  {
    var n, server :| OwnedAt(spans, key, n, server); server
  }

  lemma {:induction false} OwnedAtUnique(spans: Capture, key: Identity, n: nat, s: Identity, m: nat, t: Identity)
    requires OwnedAt(spans, key, n, s) && OwnedAt(spans, key, m, t)
    ensures n == m && s == t && s in spans && IsServer(spans[s])
    decreases n
  {
    if !IsServer(spans[key]) {
      OwnedAtUnique(spans, ParentKey(key, spans[key]), n - 1, s, m - 1, t);
    }
  }

  lemma OwnedFacts(spans: Capture, key: Identity)
    requires Owned(spans, key)
    ensures key in spans
    ensures OwnedAt(spans, key, Distance(spans, key), ServerOf(spans, key))
    ensures ServerOf(spans, key) in spans && IsServer(spans[ServerOf(spans, key)])
    ensures forall n, s :: OwnedAt(spans, key, n, s) ==> n == Distance(spans, key) && s == ServerOf(spans, key)
    ensures forall id :: OwnerIs(spans, key, id) <==> id == spans[ServerOf(spans, key)].requestId
  {
    var n, s :| OwnedAt(spans, key, n, s);
    forall m, t | OwnedAt(spans, key, m, t)
      ensures m == n && t == s
    {
      OwnedAtUnique(spans, key, n, s, m, t);
    }
    OwnedAtUnique(spans, key, n, s, n, s);
    var k, u :| OwnedAt(spans, key, k, u) && k == Distance(spans, key) && u == ServerOf(spans, key);
    forall id
      ensures OwnerIs(spans, key, id) <==> id == spans[s].requestId
    {
      if id == spans[s].requestId {
        assert OwnedAt(spans, key, n, s) && s in spans;
      }
    }
  }

  /** Going up one parent keeps the server and is one step nearer to it. */
  lemma OwnedParent(spans: Capture, key: Identity)
    requires key in spans && !IsServer(spans[key])
    ensures Owned(spans, key) <==> spans[key].parentId != 0 && Owned(spans, ParentKey(key, spans[key]))
    ensures Owned(spans, key) ==>
              var parent := ParentKey(key, spans[key]);
              Distance(spans, key) == Distance(spans, parent) + 1 && ServerOf(spans, key) == ServerOf(spans, parent)
  {
    var parent := ParentKey(key, spans[key]);
    if spans[key].parentId != 0 && Owned(spans, parent) {
      OwnedFacts(spans, parent);
      assert OwnedAt(spans, key, Distance(spans, parent) + 1, ServerOf(spans, parent));
      OwnedFacts(spans, key);
    }
    if Owned(spans, key) {
      OwnedFacts(spans, key);
      assert OwnedAt(spans, parent, Distance(spans, key) - 1, ServerOf(spans, key));
    }
  }

  lemma OwnedServer(spans: Capture, key: Identity)
    requires key in spans && IsServer(spans[key])
    ensures Owned(spans, key) && Distance(spans, key) == 0 && ServerOf(spans, key) == key
    ensures OwnerIs(spans, key, spans[key].requestId)
  {
    assert OwnedAt(spans, key, 0, key);
    OwnedFacts(spans, key);
  }

  // ---- The climb ----

  /** Whether the climb from key succeeds, given the keys already memoised and the
      number of spans being visited. */
  ghost predicate Succeeds(spans: Capture, memo: set<Identity>, key: Identity, visiting: nat)
    decreases MAX_VISITING + 1 - visiting
  {
    key in memo ||
    (visiting <= MAX_VISITING && key in spans &&
     (IsServer(spans[key]) ||
      (spans[key].parentId != 0 && Succeeds(spans, memo, ParentKey(key, spans[key]), visiting + 1))))
  }

  // A climb that starts with nothing being visited.
  ghost predicate SucceedsFresh(spans: Capture, memo: set<Identity>, key: Identity, visiting: set<Identity>) {
    visiting == {} && Succeeds(spans, memo, key, |visiting|)
  }

  /** The spans from key up to its server. */
  ghost function Chain(spans: Capture, key: Identity): set<Identity>
    requires Owned(spans, key)
    decreases Distance(spans, key)
  {
    OwnedFacts(spans, key);
    if IsServer(spans[key]) then {key}
    else
      OwnedParent(spans, key);
      {key} + Chain(spans, ParentKey(key, spans[key]))
  }

  /** Memoised keys are owned and their chains memoised as well. */
  ghost predicate ClosedAt(spans: Capture, memo: set<Identity>, key: Identity) {
    Owned(spans, key) && Chain(spans, key) <= memo
  }

  ghost predicate MemoClosed(spans: Capture, memo: set<Identity>) {
    forall key {:trigger ClosedAt(spans, memo, key)} :: key in memo ==> ClosedAt(spans, memo, key)
  }

  lemma {:induction false} SucceedsIsOwned(spans: Capture, memo: set<Identity>, key: Identity, visiting: nat)
    requires MemoClosed(spans, memo) && Succeeds(spans, memo, key, visiting)
    ensures Owned(spans, key)
    decreases MAX_VISITING + 1 - visiting
  {
    assert key in memo ==> ClosedAt(spans, memo, key);
    if key !in memo {
      if IsServer(spans[key]) {
        OwnedServer(spans, key);
      } else {
        SucceedsIsOwned(spans, memo, ParentKey(key, spans[key]), visiting + 1);
        OwnedParent(spans, key);
      }
    }
  }

  /** A chain short enough succeeds whatever is memoised. */
  lemma {:induction false} ShortSucceeds(spans: Capture, memo: set<Identity>, key: Identity, visiting: nat)
    requires Owned(spans, key) && visiting + Distance(spans, key) <= MAX_VISITING
    ensures Succeeds(spans, memo, key, visiting)
    decreases MAX_VISITING + 1 - visiting
  {
    OwnedFacts(spans, key);
    if !IsServer(spans[key]) {
      OwnedParent(spans, key);
      ShortSucceeds(spans, memo, ParentKey(key, spans[key]), visiting + 1);
    }
  }

  /** Without a memo only a short chain succeeds. */
  lemma {:induction false} EmptyMemoNeedsShort(spans: Capture, key: Identity, visiting: nat)
    requires Succeeds(spans, {}, key, visiting)
    ensures Owned(spans, key) && visiting + Distance(spans, key) <= MAX_VISITING
    decreases MAX_VISITING + 1 - visiting
  {
    if IsServer(spans[key]) {
      OwnedServer(spans, key);
    } else {
      EmptyMemoNeedsShort(spans, ParentKey(key, spans[key]), visiting + 1);
      OwnedParent(spans, key);
    }
  }

  lemma {:induction false} ChainClosed(spans: Capture, key: Identity, k: Identity)
    requires Owned(spans, key) && k in Chain(spans, key)
    ensures Owned(spans, k) && Chain(spans, k) <= Chain(spans, key)
    ensures Distance(spans, k) <= Distance(spans, key) && (Distance(spans, k) == Distance(spans, key) ==> k == key)
    ensures ServerOf(spans, k) == ServerOf(spans, key)
    ensures IsServer(spans[k]) ==> k == ServerOf(spans, key)
    decreases Distance(spans, key)
  {
    OwnedFacts(spans, key);
    if IsServer(spans[key]) {
      OwnedServer(spans, key);
    } else {
      OwnedParent(spans, key);
      if k != key {
        ChainClosed(spans, ParentKey(key, spans[key]), k);
      }
    }
  }

  /** Every memoised owner is right. */
  ghost predicate CacheValid(spans: Capture, owners: map<Identity, string>) {
    && MemoClosed(spans, owners.Keys)
    && forall key {:trigger owners[key]} :: key in owners ==> owners[key] != "" && OwnerIs(spans, key, owners[key])
  }

  lemma RecordOwner(spans: Capture, owners: map<Identity, string>, key: Identity, id: string)
    requires CacheValid(spans, owners) && OwnerIs(spans, key, id) && id != "" && Owned(spans, key)
    requires key in spans && (IsServer(spans[key]) || ParentKey(key, spans[key]) in owners)
    ensures CacheValid(spans, owners[key := id])
    ensures Chain(spans, key) <= owners.Keys + {key}
  {
    var next := owners[key := id].Keys;
    if !IsServer(spans[key]) {
      OwnedParent(spans, key);
      assert ClosedAt(spans, owners.Keys, ParentKey(key, spans[key]));
    }
    forall k | k in next
      ensures ClosedAt(spans, next, k)
    {
      assert k in owners ==> ClosedAt(spans, owners.Keys, k);
    }
  }

  ghost predicate NamedServers(spans: Capture) {
    forall s :: s in spans && IsServer(spans[s]) ==> spans[s].requestId != ""
  }

  lemma OwnerIsNamed(spans: Capture, key: Identity, id: string)
    requires OwnerIs(spans, key, id) && NamedServers(spans)
    ensures Owned(spans, key) && id != ""
  {
    var n, server :| OwnedAt(spans, key, n, server) && server in spans && spans[server].requestId == id;
    OwnedAtUnique(spans, key, n, server, n, server);
  }

  lemma OwnerOfParent(spans: Capture, key: Identity, id: string)
    requires key in spans && !IsServer(spans[key]) && Owned(spans, key)
    ensures Owned(spans, ParentKey(key, spans[key]))
    ensures OwnerIs(spans, key, id) <==> OwnerIs(spans, ParentKey(key, spans[key]), id)
    ensures Chain(spans, key) == {key} + Chain(spans, ParentKey(key, spans[key]))
    ensures ParentKey(key, spans[key]) in Chain(spans, ParentKey(key, spans[key]))
  {
    OwnedParent(spans, key);
    OwnedFacts(spans, key);
    OwnedFacts(spans, ParentKey(key, spans[key]));
  }

  /** Every span being visited is strictly farther from its server than key. */
  ghost predicate BelowKey(spans: Capture, key: Identity, visiting: set<Identity>) {
    Owned(spans, key) ==> forall v :: v in visiting ==> Owned(spans, v) && Distance(spans, key) < Distance(spans, v)
  }

  lemma BelowParent(spans: Capture, key: Identity, visiting: set<Identity>)
    requires BelowKey(spans, key, visiting) && key in spans && !IsServer(spans[key]) && spans[key].parentId != 0
    ensures BelowKey(spans, ParentKey(key, spans[key]), visiting + {key})
  {
    OwnedParent(spans, key);
  }

  lemma MemoisedOwner(spans: Capture, owners: map<Identity, string>, key: Identity)
    requires CacheValid(spans, owners) && key in owners
    ensures Owned(spans, key) && OwnerIs(spans, key, owners[key]) && Chain(spans, key) <= owners.Keys
  {
    hide Owned, OwnerIs, Chain;
    assert ClosedAt(spans, owners.Keys, key);
  }

  lemma NoEmptyOwner(spans: Capture, owners: map<Identity, string>, key: Identity)
    requires CacheValid(spans, owners)
    ensures key in owners ==> owners[key] != ""
  {
  }

  lemma NotVisited(spans: Capture, owners: map<Identity, string>, key: Identity, visiting: set<Identity>)
    requires CacheValid(spans, owners) && BelowKey(spans, key, visiting)
    ensures Succeeds(spans, owners.Keys, key, |visiting|) ==> key !in visiting
  {
    hide Owned, Chain, OwnerIs;
    if Succeeds(spans, owners.Keys, key, |visiting|) {
      SucceedsIsOwned(spans, owners.Keys, key, |visiting|);
    }
  }

  lemma OwnerOfServer(spans: Capture, key: Identity)
    requires key in spans && IsServer(spans[key])
    ensures Owned(spans, key) && OwnerIs(spans, key, spans[key].requestId) && Chain(spans, key) == {key}
  {
    OwnedServer(spans, key);
  }

  lemma OwnedThroughParent(spans: Capture, key: Identity)
    requires key in spans && !IsServer(spans[key]) && spans[key].parentId != 0 &&
             Owned(spans, ParentKey(key, spans[key]))
    ensures Owned(spans, key)
  {
    OwnedParent(spans, key);
  }

  /** The `owners` memo together with the recursive closure that fills it. */
  class OwnerCache {
    const spans: Capture
    var owners: map<Identity, string>

    constructor (spans: Capture)
      ensures this.spans == spans && owners == map[] && Valid()
    {
      this.spans := spans;
      this.owners := map[];
    }

    ghost predicate Valid()
      reads this
    {
      CacheValid(spans, owners)
    }

    method Record(key: Identity, id: string)
      requires Valid() && Owned(spans, key) && OwnerIs(spans, key, id) && id != ""
      requires key in spans && (IsServer(spans[key]) || ParentKey(key, spans[key]) in owners)
      modifies this
      ensures Valid() && owners.Keys == old(owners.Keys) + {key}
    {
      RecordOwner(spans, owners, key, id);
      owners := owners[key := id];
    }

    method Owner(key: Identity, visiting: set<Identity>) returns (r: Result<string, OwnerError>)
      requires Valid() && |visiting| <= MAX_VISITING + 1 && BelowKey(spans, key, visiting) && NamedServers(spans)
      modifies this
      ensures Valid()
      ensures r.Ok? <==> Succeeds(spans, old(owners.Keys), key, |visiting|)
      ensures r.Ok? ==> Owned(spans, key) && OwnerIs(spans, key, r.value)
      ensures r.Ok? ==> owners.Keys == old(owners.Keys) + Chain(spans, key)
      decreases MAX_VISITING + 1 - |visiting|
    {
      hide Owned, OwnerIs, Chain, Distance, BelowKey, CacheValid;
      if key in owners && owners[key] != "" {
        MemoisedOwner(spans, owners, key);
        return Ok(owners[key]);
      }
      NoEmptyOwner(spans, owners, key);
      NotVisited(spans, owners, key, visiting);
      if key in visiting || |visiting| > MAX_VISITING {
        return Err(CyclicOrDeep);
      }
      if key !in spans {
        return Err(MissingParent);
      }
      var span := spans[key];
      if IsServer(span) {
        OwnerOfServer(spans, key);
        Record(key, span.requestId);
        return Ok(span.requestId);
      }
      if span.parentId == 0 {
        return Err(UnexpectedRoot);
      }
      var parent := ParentKey(key, span);
      BelowParent(spans, key, visiting);
      assert |visiting + {key}| == |visiting| + 1;
      r := Owner(parent, visiting + {key});
      if r.Ok? {
        OwnedThroughParent(spans, key);
        OwnerOfParent(spans, key, r.value);
        OwnerIsNamed(spans, key, r.value);
        Record(key, r.value);
      }
    }
  }

  // ---- Iteration orders ----

  /** An order in which a map iteration may yield the captured spans. */
  ghost predicate IsOrder(spans: Capture, order: seq<Identity>) {
    Lists(order, spans.Keys)
  }

  // The sequence holds each key once.
  ghost predicate Lists(order: seq<Identity>, keys: set<Identity>) {
    && (forall key :: key in order <==> key in keys)
    && (forall i, j :: 0 <= i < j < |order| ==> order[i] != order[j])
  }

  /** The memo after resolving the spans of the order, as far as they are owned. */
  ghost function MemoAfter(spans: Capture, order: seq<Identity>): set<Identity> {
    if order == [] then {}
    else
      var last := order[|order| - 1];
      MemoAfter(spans, order[..|order| - 1]) + if Owned(spans, last) then Chain(spans, last) else {}
  }

  /** Resolving every span in this order succeeds. */
  ghost predicate OrderAccepted(spans: Capture, order: seq<Identity>) {
    order == [] ||
    (OrderAccepted(spans, order[..|order| - 1]) &&
     SucceedsFresh(spans, MemoAfter(spans, order[..|order| - 1]), order[|order| - 1], {}))
  }

  lemma {:induction false} MemoAfterClosed(spans: Capture, order: seq<Identity>)
    ensures MemoClosed(spans, MemoAfter(spans, order))
    decreases |order|
  {
    if order != [] {
      var before, last := MemoAfter(spans, order[..|order| - 1]), order[|order| - 1];
      MemoAfterClosed(spans, order[..|order| - 1]);
      forall k | k in MemoAfter(spans, order)
        ensures ClosedAt(spans, MemoAfter(spans, order), k)
      {
        if k in before {
          assert ClosedAt(spans, before, k);
        } else {
          ChainClosed(spans, last, k);
        }
      }
    }
  }

  ghost predicate AllOwned(spans: Capture) {
    forall key :: key in spans ==> Owned(spans, key)
  }

  ghost predicate AllShort(spans: Capture) {
    forall key :: key in spans ==> Owned(spans, key) && Distance(spans, key) <= MAX_VISITING
  }

  /** Acceptance in any order means every captured span is owned. */
  lemma {:induction false} AcceptedIsOwned(spans: Capture, order: seq<Identity>, key: Identity)
    requires OrderAccepted(spans, order) && key in order
    ensures Owned(spans, key)
    decreases |order|
  {
    var init := order[..|order| - 1];
    if key == order[|order| - 1] {
      MemoAfterClosed(spans, init);
      SucceedsIsOwned(spans, MemoAfter(spans, init), key, 0);
    } else {
      AcceptedIsOwned(spans, init, key);
    }
  }

  lemma {:induction false} ShortIsAccepted(spans: Capture, order: seq<Identity>)
    requires forall key :: key in order ==> Owned(spans, key) && Distance(spans, key) <= MAX_VISITING
    ensures OrderAccepted(spans, order)
    decreases |order|
  {
    if order != [] {
      ShortIsAccepted(spans, order[..|order| - 1]);
      ShortSucceeds(spans, MemoAfter(spans, order[..|order| - 1]), order[|order| - 1], 0);
    }
  }

  lemma {:induction false} FirstNeedsShort(spans: Capture, order: seq<Identity>)
    requires OrderAccepted(spans, order) && order != []
    ensures Owned(spans, order[0]) && Distance(spans, order[0]) <= MAX_VISITING
    decreases |order|
  {
    if |order| == 1 {
      assert order[..0] == [];
      EmptyMemoNeedsShort(spans, order[0], 0);
    } else {
      FirstNeedsShort(spans, order[..|order| - 1]);
    }
  }

  lemma SomeOrder(keys: set<Identity>) returns (order: seq<Identity>)
    ensures Lists(order, keys)
  {
    if keys == {} {
      order := [];
    } else {
      var key :| key in keys;
      var rest := SomeOrder(keys - {key});
      order := [key] + rest;
    }
  }

  lemma OrderStartingWith(spans: Capture, key: Identity) returns (order: seq<Identity>)
    requires key in spans
    ensures IsOrder(spans, order) && order != [] && order[0] == key
  {
    var rest := SomeOrder(spans.Keys - {key});
    order := [key] + rest;
  }

  /** Every order is accepted exactly when all chains have at most 65 spans. */
  lemma EveryOrderAccepts(spans: Capture)
    ensures (forall order :: IsOrder(spans, order) ==> OrderAccepted(spans, order)) <==> AllShort(spans)
  {
    if AllShort(spans) {
      forall order | IsOrder(spans, order)
        ensures OrderAccepted(spans, order)
      {
        ShortIsAccepted(spans, order);
      }
    }
    if forall order :: IsOrder(spans, order) ==> OrderAccepted(spans, order) {
      forall key | key in spans
        ensures Owned(spans, key) && Distance(spans, key) <= MAX_VISITING
      {
        var order := OrderStartingWith(spans, key);
        FirstNeedsShort(spans, order);
      }
    }
  }

  lemma Farthest(spans: Capture, keys: set<Identity>) returns (far: Identity)
    requires keys != {} && forall key :: key in keys ==> Owned(spans, key)
    ensures far in keys && forall key :: key in keys ==> Distance(spans, key) <= Distance(spans, far)
  {
    far :| far in keys;
    if keys != {far} {
      var rest := Farthest(spans, keys - {far});
      if Distance(spans, far) < Distance(spans, rest) {
        far := rest;
      }
    }
  }

  lemma WithoutFarthest(spans: Capture, keys: set<Identity>, far: Identity)
    requires MemoClosed(spans, keys) && far in keys
    requires forall key :: key in keys ==>
             Owned(spans, key) && Owned(spans, far) && Distance(spans, key) <= Distance(spans, far)
    ensures MemoClosed(spans, keys - {far})
    ensures SucceedsFresh(spans, keys - {far}, far, {})
    ensures Chain(spans, far) + (keys - {far}) == keys
  {
    var rest := keys - {far};
    forall key | key in keys
      ensures ClosedAt(spans, keys, key) && (key != far ==> ClosedAt(spans, rest, key))
    {
      assert ClosedAt(spans, keys, key);
      if far in Chain(spans, key) {
        ChainClosed(spans, key, far);
      }
    }
    OwnedFacts(spans, far);
    if !IsServer(spans[far]) {
      OwnerOfParent(spans, far, "");
      OwnedParent(spans, far);
      assert Succeeds(spans, rest, ParentKey(far, spans[far]), 1);
    }
  }

  lemma OrderAppend(spans: Capture, init: seq<Identity>, last: Identity)
    requires Owned(spans, last)
    ensures MemoAfter(spans, init + [last]) == MemoAfter(spans, init) + Chain(spans, last)
    ensures OrderAccepted(spans, init + [last]) <==>
            OrderAccepted(spans, init) && SucceedsFresh(spans, MemoAfter(spans, init), last, {})
  {
    assert (init + [last])[..|init|] == init;
  }

  lemma ListsAppend(init: seq<Identity>, keys: set<Identity>, last: Identity)
    requires last in keys && Lists(init, keys - {last})
    ensures Lists(init + [last], keys)
  {
  }

  lemma ClosedFacts(spans: Capture, keys: set<Identity>)
    requires MemoClosed(spans, keys)
    ensures forall key :: key in keys ==> ClosedAt(spans, keys, key) && Owned(spans, key)
  {
    hide Owned, Chain;
  }

  /** Servers first, then spans ever farther from them. */
  lemma {:induction false} NearestFirst(spans: Capture, keys: set<Identity>) returns (order: seq<Identity>)
    requires MemoClosed(spans, keys)
    ensures Lists(order, keys) && OrderAccepted(spans, order) && MemoAfter(spans, order) == keys
    decreases |keys|
  {
    if keys == {} {
      order := [];
    } else {
      hide Owned, Chain, Succeeds, SucceedsFresh, OrderAccepted, MemoAfter, Lists, MemoClosed, ClosedAt, Distance;
      ClosedFacts(spans, keys);
      var far := Farthest(spans, keys);
      WithoutFarthest(spans, keys, far);
      var init := NearestFirst(spans, keys - {far});
      order := init + [far];
      OrderAppend(spans, init, far);
      ListsAppend(init, keys, far);
    }
  }

  /** Some order is accepted exactly when every captured span is owned, however
      long the chains. */
  lemma SomeOrderAccepts(spans: Capture)
    ensures (exists order :: IsOrder(spans, order) && OrderAccepted(spans, order)) <==> AllOwned(spans)
  {
    if order :| IsOrder(spans, order) && OrderAccepted(spans, order) {
      forall key | key in spans
        ensures Owned(spans, key)
      {
        AcceptedIsOwned(spans, order, key);
      }
    }
    if AllOwned(spans) {
      forall key | key in spans
        ensures ClosedAt(spans, spans.Keys, key)
      {
        forall k | k in Chain(spans, key)
          ensures k in spans
        {
          ChainClosed(spans, key, k);
          OwnedFacts(spans, k);
        }
      }
      var order := NearestFirst(spans, spans.Keys);
      assert IsOrder(spans, order);
    }
  }

  /** The depth guard makes the verdict depend on the iteration order exactly for
      captures whose spans are all owned, but some by a chain of more than 65 spans. */
  lemma VerdictIndependentOfOrder(spans: Capture)
    ensures (forall o, p :: IsOrder(spans, o) && IsOrder(spans, p) ==>
            (OrderAccepted(spans, o) <==> OrderAccepted(spans, p)))
            <==> (AllOwned(spans) ==> AllShort(spans))
  {
    SomeOrderAccepts(spans);
    EveryOrderAccepts(spans);
    if AllOwned(spans) {
      var best :| IsOrder(spans, best) && OrderAccepted(spans, best);
    }
  }
}
