/** The stress checker's comparison of a capture with the ledger of requests. */
module StressValidation {
  import opened Basics
  import opened Wrappers
  import opened Spans
  import opened Ownership
  import opened Sweep

  datatype Request = Request(
    execution: string,
    sequence: int,
    id: string,
    sqlMarker: string,
    status: int,
    sqlCount: int,
    start: int,
    end: int)

  /** Comparisons of one span with one request that no other part depends on: the
      server's metadata, status, path and propagated context; an SQL span's marker. */
  datatype Checks = Checks(
    serverMatches: (Identity, Span, Request) -> bool,
    sqlMatches: (Span, Request) -> bool)

  // ---- The ledger ----

  predicate Complete(r: Request) {
    r.sqlCount >= 0 && r.id != "" && r.sqlMarker != "" && r.status >= 100 && r.end > r.start
  }

  // Sequence numbers the first n requests list for one execution.
  ghost function SequencesTo(ledger: seq<Request>, n: nat, execution: string): set<int>
    requires n <= |ledger|
  {
    set i | 0 <= i < n && ledger[i].execution == execution :: ledger[i].sequence
  }

  ghost function Sequences(ledger: seq<Request>, execution: string): set<int> {
    SequencesTo(ledger, |ledger|, execution)
  }

  /** Requests are complete, their IDs and their places in an execution are unique,
      and every execution is numbered 1 to n without a gap. */
  ghost predicate LedgerOk(ledger: seq<Request>) {
    && (forall i :: 0 <= i < |ledger| ==> Complete(ledger[i]))
    && (forall i, j :: 0 <= i < j < |ledger| ==> ledger[i].id != ledger[j].id)
    && DistinctPlaces(ledger, |ledger|)
    && (forall i :: 0 <= i < |ledger| ==> Numbered(Sequences(ledger, ledger[i].execution)))
  }

  ghost predicate Numbered(seqs: set<int>) {
    forall n :: 1 <= n <= |seqs| ==> n in seqs
  }

  ghost predicate IsLedgerMap(ledger: seq<Request>, requests: map<string, Request>) {
    && (forall i :: 0 <= i < |ledger| ==> ledger[i].id in requests && requests[ledger[i].id] == ledger[i])
    && (forall id :: id in requests ==> exists i :: 0 <= i < |ledger| && ledger[i].id == id)
  }

  ghost predicate SequencesUpTo(ledger: seq<Request>, n: nat, sequences: map<string, set<int>>)
    requires n <= |ledger|
  {
    && (forall e :: e in sequences ==> sequences[e] == SequencesTo(ledger, n, e))
    && (forall e :: e in sequences <==> exists i :: 0 <= i < n && ledger[i].execution == e)
  }

  ghost predicate DistinctPlaces(ledger: seq<Request>, n: nat)
    requires n <= |ledger|
  {
    forall i, j :: 0 <= i < j < n ==>
      ledger[i].execution != ledger[j].execution || ledger[i].sequence != ledger[j].sequence
  }

  lemma SequencesNext(ledger: seq<Request>, n: nat, sequences: map<string, set<int>>)
    requires n < |ledger| && SequencesUpTo(ledger, n, sequences)
    ensures var e := ledger[n].execution;
            SequencesUpTo(ledger, n + 1, sequences[e := (if e in sequences then sequences[e] else {}) +
              {ledger[n].sequence}])
  {
    var last := ledger[n];
    forall e
      ensures SequencesTo(ledger, n + 1, e) ==
              SequencesTo(ledger, n, e) + if last.execution == e then {last.sequence} else {}
    {
    }
    if last.execution !in sequences {
      assert SequencesTo(ledger, n, last.execution) == {};
    }
  }

  method CollectSequences(ledger: seq<Request>) returns (r: Option<map<string, set<int>>>)
    ensures r.Some? ==> SequencesUpTo(ledger, |ledger|, r.value)
    ensures r.Some? <==> DistinctPlaces(ledger, |ledger|)
  {
    var sequences: map<string, set<int>> := map[];
    for n := 0 to |ledger|
      invariant SequencesUpTo(ledger, n, sequences) && DistinctPlaces(ledger, n)
    {
      var request := ledger[n];
      var known := if request.execution in sequences then sequences[request.execution] else {};
      if request.sequence in known {
        return None;
      }
      SequencesNext(ledger, n, sequences);
      sequences := sequences[request.execution := known + {request.sequence}];
    }
    return Some(sequences);
  }

  method CheckNumbering(ghost ledger: seq<Request>, sequences: map<string, set<int>>) returns (ok: bool)
    requires SequencesUpTo(ledger, |ledger|, sequences)
    ensures ok <==> forall i :: 0 <= i < |ledger| ==> Numbered(Sequences(ledger, ledger[i].execution))
  {
    var todo := sequences.Keys;
    while todo != {}
      invariant todo <= sequences.Keys
      invariant forall e :: e in sequences.Keys - todo ==> Numbered(sequences[e])
    {
      var e :| e in todo;
      for n := 1 to |sequences[e]| + 1
        invariant forall k :: 1 <= k < n ==> k in sequences[e]
      {
        if n !in sequences[e] {
          ghost var i :| 0 <= i < |ledger| && ledger[i].execution == e;
          assert !Numbered(Sequences(ledger, ledger[i].execution));
          return false;
        }
      }
      todo := todo - {e};
    }
    return true;
  }

  // The first n entries are complete and distinct, and the map holds exactly them.
  ghost predicate LedgerRead(ledger: seq<Request>, n: nat, requests: map<string, Request>)
    requires n <= |ledger|
  {
    && (forall i :: 0 <= i < n ==> Complete(ledger[i]))
    && (forall i, j :: 0 <= i < j < n ==> ledger[i].id != ledger[j].id)
    && (forall i :: 0 <= i < n ==> ledger[i].id in requests && requests[ledger[i].id] == ledger[i])
    && (forall id :: id in requests ==> exists i :: 0 <= i < n && ledger[i].id == id)
  }

  lemma LedgerNext(ledger: seq<Request>, n: nat, requests: map<string, Request>)
    requires n < |ledger| && LedgerRead(ledger, n, requests)
    ensures Complete(ledger[n]) && ledger[n].id !in requests ==>
            LedgerRead(ledger, n + 1, requests[ledger[n].id := ledger[n]])
    ensures !Complete(ledger[n]) || ledger[n].id in requests ==> !LedgerOk(ledger)
  {
    hide Complete;
    if ledger[n].id in requests {
      var i :| 0 <= i < n && ledger[i].id == ledger[n].id;
    } else if Complete(ledger[n]) {
      var next := requests[ledger[n].id := ledger[n]];
      forall id | id in next
        ensures exists i :: 0 <= i < n + 1 && ledger[i].id == id
      {
        if id in requests {
          var i :| 0 <= i < n && ledger[i].id == id;
        }
      }
    }
  }

  method ReadLedger(ledger: seq<Request>) returns (r: Option<map<string, Request>>)
    ensures r.Some? <==> LedgerOk(ledger)
    ensures r.Some? ==> IsLedgerMap(ledger, r.value)
  {
    hide Complete, LedgerRead;
    var requests: map<string, Request> := map[];
    NothingRead(ledger);
    for n := 0 to |ledger|
      invariant LedgerRead(ledger, n, requests)
    {
      LedgerNext(ledger, n, requests);
      if !Complete(ledger[n]) || ledger[n].id in requests {
        return None;
      }
      requests := requests[ledger[n].id := ledger[n]];
    }
    AllRead(ledger, requests);
    var sequences := CollectSequences(ledger);
    if sequences.None? {
      return None;
    }
    var numbered := CheckNumbering(ledger, sequences.value);
    return if numbered then Some(requests) else None;
  }

  lemma NothingRead(ledger: seq<Request>)
    ensures LedgerRead(ledger, 0, map[])
  {
  }

  lemma AllRead(ledger: seq<Request>, requests: map<string, Request>)
    requires LedgerRead(ledger, |ledger|, requests)
    ensures IsLedgerMap(ledger, requests)
    ensures forall i :: 0 <= i < |ledger| ==> Complete(ledger[i])
    ensures forall i, j :: 0 <= i < j < |ledger| ==> ledger[i].id != ledger[j].id
  {
  }

  // ---- Servers ----

  ghost predicate ServerAt(spans: Capture, key: Identity) {
    key in spans && IsServer(spans[key])
  }

  ghost predicate ServerOk(spans: Capture, requests: map<string, Request>, checks: Checks, key: Identity)
    requires key in spans
  {
    && ParentKey(key, spans[key]) !in spans
    && spans[key].requestId in requests
    && checks.serverMatches(key, spans[key], requests[spans[key].requestId])
  }

  /** Servers and requests are in bijection, and each pair matches. */
  ghost predicate ServersOk(spans: Capture, requests: map<string, Request>, checks: Checks) {
    && requests != map[]
    && (forall key :: ServerAt(spans, key) ==> ServerOk(spans, requests, checks, key))
    && (forall k, l :: ServerAt(spans, k) && ServerAt(spans, l) && spans[k].requestId == spans[l].requestId ==> k == l)
    && (forall id :: id in requests ==> exists key :: ServerAt(spans, key) && spans[key].requestId == id)
  }

  /** The servers among the first n spans of the order, by request. */
  ghost predicate ServersUpTo(spans: Capture, order: seq<Identity>, n: nat, servers: map<string, Identity>)
    requires n <= |order|
  {
    && (forall id :: id in servers ==>
          servers[id] in order[..n] && ServerAt(spans, servers[id]) && spans[servers[id]].requestId == id)
    && (forall k :: 0 <= k < n && ServerAt(spans, order[k]) ==>
          spans[order[k]].requestId in servers && servers[spans[order[k]].requestId] == order[k])
  }

  ghost predicate ServersByRequest(spans: Capture, servers: map<string, Identity>) {
    && (forall id :: id in servers ==> ServerAt(spans, servers[id]) && spans[servers[id]].requestId == id)
    && (forall key :: ServerAt(spans, key) ==> spans[key].requestId in servers && servers[spans[key].requestId] == key)
  }

  lemma NoServerNext(spans: Capture, order: seq<Identity>, i: nat, servers: map<string, Identity>)
    requires IsOrder(spans, order) && i < |order| && ServersUpTo(spans, order, i, servers) && !ServerAt(spans, order[i])
    ensures ServersUpTo(spans, order, i + 1, servers)
  {
    assert order[..i + 1] == order[..i] + [order[i]];
  }

  lemma ServerNext(spans: Capture, order: seq<Identity>, i: nat, servers: map<string, Identity>)
    requires IsOrder(spans, order) && i < |order| && ServersUpTo(spans, order, i, servers) && ServerAt(spans, order[i])
    requires spans[order[i]].requestId !in servers
    ensures ServersUpTo(spans, order, i + 1, servers[spans[order[i]].requestId := order[i]])
  {
    assert order[..i + 1] == order[..i] + [order[i]];
  }

  lemma SecondServer(spans: Capture, requests: map<string, Request>, checks: Checks, order: seq<Identity>, i: nat,
                     servers: map<string, Identity>)
    requires IsOrder(spans, order) && i < |order| && ServersUpTo(spans, order, i, servers) && ServerAt(spans, order[i])
    requires spans[order[i]].requestId in servers
    ensures !ServersOk(spans, requests, checks)
  {
    hide ServerOk;
    var other := servers[spans[order[i]].requestId];
    assert other in order[..i] && ServerAt(spans, other);
    var k :| 0 <= k < i && order[k] == other;
    assert order[k] != order[i];
  }

  lemma ServersComplete(spans: Capture, requests: map<string, Request>, checks: Checks, order: seq<Identity>,
                        servers: map<string, Identity>)
    requires IsOrder(spans, order) && ServersUpTo(spans, order, |order|, servers)
    requires forall k :: 0 <= k < |order| && ServerAt(spans, order[k]) ==> ServerOk(spans, requests, checks, order[k])
    ensures ServersByRequest(spans, servers)
    ensures forall key :: ServerAt(spans, key) ==> ServerOk(spans, requests, checks, key)
  {
    hide ServerOk;
    forall key | ServerAt(spans, key)
      ensures ServerOk(spans, requests, checks, key)
      ensures spans[key].requestId in servers && servers[spans[key].requestId] == key
    {
      assert key in order;
      var k :| 0 <= k < |order| && order[k] == key;
    }
  }

  lemma NotAllOk(spans: Capture, requests: map<string, Request>, checks: Checks, key: Identity)
    requires ServerAt(spans, key) && !ServerOk(spans, requests, checks, key)
    ensures !ServersOk(spans, requests, checks)
  {
  }

  method CollectServers(spans: Capture, requests: map<string, Request>, checks: Checks, order: seq<Identity>)
    returns (r: Option<map<string, Identity>>)
    requires IsOrder(spans, order)
    ensures r.None? ==> !ServersOk(spans, requests, checks)
    ensures r.Some? ==> ServersByRequest(spans, r.value)
    ensures r.Some? ==> forall key :: ServerAt(spans, key) ==> ServerOk(spans, requests, checks, key)
  {
    hide ServersUpTo, ServersOk, ServersByRequest;
    var servers: map<string, Identity> := map[];
    NoServersYet(spans, order);
    for i := 0 to |order|
      invariant ServersUpTo(spans, order, i, servers)
      invariant forall k :: 0 <= k < i && ServerAt(spans, order[k]) ==> ServerOk(spans, requests, checks, order[k])
    {
      var key := order[i];
      var span := spans[key];
      if !IsServer(span) {
        NoServerNext(spans, order, i, servers);
        continue;
      }
      if ParentKey(key, span) in spans || span.requestId !in requests {
        NotAllOk(spans, requests, checks, key);
        return None;
      }
      if span.requestId in servers {
        SecondServer(spans, requests, checks, order, i, servers);
        return None;
      }
      ServerNext(spans, order, i, servers);
      servers := servers[span.requestId := key];
      if !checks.serverMatches(key, span, requests[span.requestId]) {
        NotAllOk(spans, requests, checks, key);
        return None;
      }
    }
    ServersComplete(spans, requests, checks, order, servers);
    return Some(servers);
  }

  lemma NoServersYet(spans: Capture, order: seq<Identity>)
    ensures ServersUpTo(spans, order, 0, map[])
  {
  }

  method MatchServers(spans: Capture, requests: map<string, Request>, checks: Checks, order: seq<Identity>)
    returns (r: Option<map<string, Identity>>)
    requires IsOrder(spans, order)
    ensures r.Some? <==> ServersOk(spans, requests, checks)
    ensures r.Some? ==> ServersByRequest(spans, r.value)
  {
    r := CollectServers(spans, requests, checks, order);
    if r.None? {
      return;
    }
    var servers := r.value;
    forall id | id in servers
      ensures id in requests
    {
      assert ServerOk(spans, requests, checks, servers[id]);
    }
    SameSizeIsBijection(spans, requests, checks, servers);
    if |servers| != |requests| || |requests| == 0 {
      return None;
    }
  }

  lemma SameSizeIsBijection(spans: Capture, requests: map<string, Request>, checks: Checks,
                            servers: map<string, Identity>)
    requires ServersByRequest(spans, servers) && servers.Keys <= requests.Keys
    requires forall key :: ServerAt(spans, key) ==> ServerOk(spans, requests, checks, key)
    ensures ServersOk(spans, requests, checks) <==> |servers| == |requests| && |requests| != 0
  {
    assert |servers.Keys| == |servers| && |requests.Keys| == |requests|;
    if |servers| == |requests| {
      SubsetOfSameSize(servers.Keys, requests.Keys);
      forall id | id in requests
        ensures exists key :: ServerAt(spans, key) && spans[key].requestId == id
      {
        assert ServerAt(spans, servers[id]);
      }
    }
    if ServersOk(spans, requests, checks) {
      forall id | id in requests
        ensures id in servers
      {
        var key :| ServerAt(spans, key) && spans[key].requestId == id;
      }
      assert servers.Keys == requests.Keys;
    }
  }

  // ---- Owners and SQL counts ----

  ghost function OwnerId(spans: Capture, key: Identity): string {
    if Owned(spans, key) && ServerOf(spans, key) in spans then spans[ServerOf(spans, key)].requestId else ""
  }

  /** The SQL spans among `keys` that a request owns. */
  ghost function SqlSpans(spans: Capture, keys: set<Identity>, id: string): set<Identity> {
    set k | k in keys && k in spans && spans[k].spanType == "sql" && OwnerId(spans, k) == id
  }

  ghost predicate MarkerOk(spans: Capture, requests: map<string, Request>, checks: Checks, key: Identity)
    requires key in spans
  {
    spans[key].spanType == "sql" ==>
      OwnerId(spans, key) in requests && checks.sqlMatches(spans[key], requests[OwnerId(spans, key)])
  }

  function CountOf(counts: map<string, nat>, id: string): nat {
    if id in counts then counts[id] else 0
  }

  ghost predicate CountsUpTo(spans: Capture, done: set<Identity>, counts: map<string, nat>) {
    forall id {:trigger CountOf(counts, id)} :: CountOf(counts, id) == |SqlSpans(spans, done, id)|
  }

  lemma SqlSpansNext(spans: Capture, done: set<Identity>, key: Identity, id: string)
    requires key in spans && key !in done
    ensures |SqlSpans(spans, done + {key}, id)| ==
            |SqlSpans(spans, done, id)| + if spans[key].spanType == "sql" && OwnerId(spans, key) == id then 1 else 0
  {
    var before := SqlSpans(spans, done, id);
    if spans[key].spanType == "sql" && OwnerId(spans, key) == id {
      assert SqlSpans(spans, done + {key}, id) == before + {key};
    } else {
      assert SqlSpans(spans, done + {key}, id) == before;
    }
  }

  // The counts after one more span.
  ghost function Counted(spans: Capture, counts: map<string, nat>, key: Identity): map<string, nat>
    requires key in spans
  {
    if spans[key].spanType == "sql" then counts[OwnerId(spans, key) := CountOf(counts, OwnerId(spans, key)) + 1]
      else counts
  }

  lemma CountOne(spans: Capture, done: set<Identity>, key: Identity, counts: map<string, nat>)
    requires CountsUpTo(spans, done, counts) && key in spans && key !in done
    ensures CountsUpTo(spans, done + {key}, Counted(spans, counts, key))
  {
    var next := Counted(spans, counts, key);
    forall id
      ensures CountOf(next, id) == |SqlSpans(spans, done + {key}, id)|
    {
      SqlSpansNext(spans, done, key, id);
      assert CountOf(counts, id) == |SqlSpans(spans, done, id)|;
    }
  }

  lemma OwnerIdIs(spans: Capture, key: Identity, id: string)
    requires OwnerIs(spans, key, id) && Owned(spans, key)
    ensures OwnerId(spans, key) == id && ServerAt(spans, ServerOf(spans, key))
  {
    OwnedFacts(spans, key);
  }

  ghost predicate RequestedServers(spans: Capture, requests: map<string, Request>) {
    forall key :: ServerAt(spans, key) ==> spans[key].requestId in requests && spans[key].requestId != ""
  }

  method CountSpan(cache: OwnerCache, requests: map<string, Request>, checks: Checks, key: Identity,
                   counts: map<string, nat>)
    returns (r: Option<map<string, nat>>)
    requires cache.Valid() && key in cache.spans && RequestedServers(cache.spans, requests)
    modifies cache
    ensures cache.Valid()
    ensures r.Some? <==> SucceedsFresh(cache.spans, old(cache.owners.Keys), key, {}) &&
                         MarkerOk(cache.spans, requests, checks, key)
    ensures r.Some? ==> Owned(cache.spans, key) && cache.owners.Keys == old(cache.owners.Keys) + Chain(cache.spans, key)
    ensures r.Some? ==> r.value == Counted(cache.spans, counts, key)
  {
    hide Chain, CountOf;
    var id := cache.Owner(key, {});
    if id.Err? {
      return None;
    }
    OwnerIdIs(cache.spans, key, id.value);
    var span := cache.spans[key];
    if span.spanType != "sql" {
      return Some(counts);
    }
    if !checks.sqlMatches(span, requests[id.value]) {
      return None;
    }
    return Some(counts[id.value := CountOf(counts, id.value) + 1]);
  }

  ghost function Prefix(order: seq<Identity>, n: nat): set<Identity>
    requires n <= |order|
  {
    set k | 0 <= k < n :: order[k]
  }

  lemma PrefixNext(spans: Capture, order: seq<Identity>, n: nat)
    requires IsOrder(spans, order) && n < |order|
    ensures order[n] !in Prefix(order, n) && Prefix(order, n + 1) == Prefix(order, n) + {order[n]}
    ensures order[n] in spans && order[..n + 1] == order[..n] + [order[n]]
  {
  }

  method CountSql(spans: Capture, requests: map<string, Request>, checks: Checks, order: seq<Identity>)
    returns (r: Option<map<string, nat>>)
    requires IsOrder(spans, order) && RequestedServers(spans, requests)
    ensures r.Some? <==> OrderAccepted(spans, order) && forall key :: key in spans ==>
                         MarkerOk(spans, requests, checks, key)
    ensures r.Some? ==> CountsUpTo(spans, spans.Keys, r.value)
  {
    hide Chain, MarkerOk, Counted, CountsUpTo, SucceedsFresh, OrderAccepted, MemoAfter, Owned, Prefix;
    var cache := new OwnerCache(spans);
    var counts: map<string, nat> := map[];
    NothingCounted(spans, order);
    for i := 0 to |order|
      invariant cache.Valid() && cache.spans == spans
      invariant cache.owners.Keys == MemoAfter(spans, order[..i])
      invariant OrderAccepted(spans, order[..i])
      invariant forall key :: key in Prefix(order, i) ==> key in spans && MarkerOk(spans, requests, checks, key)
      invariant CountsUpTo(spans, Prefix(order, i), counts)
    {
      PrefixNext(spans, order, i);
      CountOne(spans, Prefix(order, i), order[i], counts);
      ghost var memo := cache.owners.Keys;
      var next := CountSpan(cache, requests, checks, order[i], counts);
      if next.None? {
        if !SucceedsFresh(spans, memo, order[i], {}) {
          NotAccepted(spans, order, i);
        }
        return None;
      }
      OrderAppend(spans, order[..i], order[i]);
      counts := next.value;
    }
    assert order[..|order|] == order;
    WholePrefix(spans, order);
    return Some(counts);
  }

  lemma NothingCounted(spans: Capture, order: seq<Identity>)
    ensures Prefix(order, 0) == {} && CountsUpTo(spans, Prefix(order, 0), map[])
    ensures MemoAfter(spans, []) == {} && OrderAccepted(spans, [])
  {
    assert forall id :: SqlSpans(spans, Prefix(order, 0), id) == {};
  }

  lemma WholePrefix(spans: Capture, order: seq<Identity>)
    requires IsOrder(spans, order)
    ensures Prefix(order, |order|) == spans.Keys
  {
    hide Owned;
    assert forall key :: key in order ==> exists k :: 0 <= k < |order| && order[k] == key;
  }

  lemma {:induction false} NotAccepted(spans: Capture, order: seq<Identity>, i: nat)
    requires i < |order| && !SucceedsFresh(spans, MemoAfter(spans, order[..i]), order[i], {})
    ensures !OrderAccepted(spans, order)
    decreases |order|
  {
    if i < |order| - 1 {
      assert order[..|order| - 1][..i] == order[..i];
      NotAccepted(spans, order[..|order| - 1], i);
    }
  }

  ghost predicate CountsMatch(spans: Capture, requests: map<string, Request>) {
    forall id :: id in requests ==> |SqlSpans(spans, spans.Keys, id)| == requests[id].sqlCount
  }

  method CompareCounts(spans: Capture, requests: map<string, Request>, counts: map<string, nat>) returns (ok: bool)
    requires CountsUpTo(spans, spans.Keys, counts)
    ensures ok <==> CountsMatch(spans, requests)
  {
    var todo := requests.Keys;
    while todo != {}
      invariant todo <= requests.Keys
      invariant forall id :: id in requests.Keys - todo ==> |SqlSpans(spans, spans.Keys, id)| == requests[id].sqlCount
    {
      var id :| id in todo;
      var count := CountOf(counts, id);
      if count != requests[id].sqlCount {
        return false;
      }
      todo := todo - {id};
    }
    return true;
  }

  // ---- Concurrency of the servers ----

  // 64-bit two's complement, as Go adds the start and the duration.
  function Wrap64(x: int): int {
    (x + 0x8000_0000_0000_0000) % 0x1_0000_0000_0000_0000 - 0x8000_0000_0000_0000
  }

  function EndOf(s: Span): int {
    Wrap64(s.start + s.duration)
  }

  ghost function Begun(spans: Capture, keys: set<Identity>, t: int): set<Identity> {
    set k | k in keys && k in spans && spans[k].start <= t
  }

  ghost function Ended(spans: Capture, keys: set<Identity>, t: int): set<Identity> {
    set k | k in keys && k in spans && EndOf(spans[k]) <= t
  }

  ghost function ServerKeys(spans: Capture): set<Identity> {
    set k | k in spans && IsServer(spans[k])
  }

  /** At some instant at least two more server spans have begun than ended. */
  ghost predicate Concurrent(spans: Capture) {
    exists t :: |Begun(spans, ServerKeys(spans), t)| - |Ended(spans, ServerKeys(spans), t)| >= 2
  }

  ghost predicate Covers(spans: Capture, keys: set<Identity>, intervals: seq<Interval>) {
    forall t {:trigger SignedDepth(intervals, t)} ::
      SignedDepth(intervals, t) == |Begun(spans, keys, t)| - |Ended(spans, keys, t)|
  }

  lemma BegunNext(spans: Capture, keys: set<Identity>, key: Identity, t: int)
    requires key in spans && key !in keys
    ensures |Begun(spans, keys + {key}, t)| == |Begun(spans, keys, t)| + if spans[key].start <= t then 1 else 0
  {
    var begun := Begun(spans, keys, t);
    if spans[key].start <= t {
      assert Begun(spans, keys + {key}, t) == begun + {key};
    } else {
      assert Begun(spans, keys + {key}, t) == begun;
    }
  }

  lemma EndedNext(spans: Capture, keys: set<Identity>, key: Identity, t: int)
    requires key in spans && key !in keys
    ensures |Ended(spans, keys + {key}, t)| == |Ended(spans, keys, t)| + if EndOf(spans[key]) <= t then 1 else 0
  {
    hide EndOf;
    var ended := Ended(spans, keys, t);
    if EndOf(spans[key]) <= t {
      assert Ended(spans, keys + {key}, t) == ended + {key};
    } else {
      assert Ended(spans, keys + {key}, t) == ended;
    }
  }

  lemma CoverOne(spans: Capture, keys: set<Identity>, key: Identity, intervals: seq<Interval>)
    requires Covers(spans, keys, intervals) && key in spans && key !in keys
    ensures Covers(spans, keys + {key}, intervals + [Interval(spans[key].start, EndOf(spans[key]))])
  {
    var next := intervals + [Interval(spans[key].start, EndOf(spans[key]))];
    assert next[..|next| - 1] == intervals;
    forall t
      ensures SignedDepth(next, t) == |Begun(spans, keys + {key}, t)| - |Ended(spans, keys + {key}, t)|
    {
      assert SignedDepth(intervals, t) == |Begun(spans, keys, t)| - |Ended(spans, keys, t)|;
      BegunNext(spans, keys, key, t);
      EndedNext(spans, keys, key, t);
    }
  }

  method ServersOverlap(spans: Capture, servers: map<string, Identity>) returns (ok: bool)
    requires ServersByRequest(spans, servers)
    ensures ok <==> Concurrent(spans)
  {
    var todo := servers.Keys;
    var intervals: seq<Interval> := [];
    ghost var keys: set<Identity> := {};
    while todo != {}
      invariant todo <= servers.Keys
      invariant keys == set id | id in servers.Keys - todo :: servers[id]
      invariant Covers(spans, keys, intervals)
    {
      var id :| id in todo;
      var key := servers[id];
      var span := spans[key];
      CoverOne(spans, keys, key, intervals);
      intervals := intervals + [Interval(span.start, EndOf(span))];
      keys := keys + {key};
      todo := todo - {id};
    }
    assert keys == ServerKeys(spans) by {
      forall key | key in ServerKeys(spans)
        ensures key in keys
      {
        assert ServerAt(spans, key);
      }
    }
    PeakIsLargestDepth(intervals);
    var peak := Overlap(intervals);
    if Concurrent(spans) {
      var t :| |Begun(spans, keys, t)| - |Ended(spans, keys, t)| >= 2;
      assert SignedDepth(intervals, t) >= 2;
    }
    return peak >= 2;
  }

  ghost predicate RunsAt(spans: Capture, k: Identity, t: int) {
    ServerAt(spans, k) && spans[k].start <= t < EndOf(spans[k])
  }

  /** When no end wraps around, that means two server spans share an instant. */
  lemma ConcurrentSharesInstant(spans: Capture)
    requires forall k :: ServerAt(spans, k) ==> spans[k].start < EndOf(spans[k])
    ensures Concurrent(spans) <==> exists t, k, l :: k != l && RunsAt(spans, k, t) && RunsAt(spans, l, t)
  {
    var keys := ServerKeys(spans);
    if Concurrent(spans) {
      var t :| |Begun(spans, keys, t)| - |Ended(spans, keys, t)| >= 2;
      var running := RunningAt(spans, t);
      var k :| k in running;
      assert |running - {k}| == |running| - 1;
      var l :| l in running - {k};
      assert RunsAt(spans, k, t) && RunsAt(spans, l, t);
    }
    if t, k, l :| k != l && RunsAt(spans, k, t) && RunsAt(spans, l, t) {
      var running := RunningAt(spans, t);
      assert |running - {k, l}| == |running| - 2;
    }
  }

  lemma RunningAt(spans: Capture, t: int) returns (running: set<Identity>)
    requires forall k :: ServerAt(spans, k) ==> spans[k].start < EndOf(spans[k])
    ensures forall k :: k in running <==> RunsAt(spans, k, t)
    ensures |running| == |Begun(spans, ServerKeys(spans), t)| - |Ended(spans, ServerKeys(spans), t)|
  {
    var begun, ended := Begun(spans, ServerKeys(spans), t), Ended(spans, ServerKeys(spans), t);
    forall k | k in ended
      ensures k in begun
    {
      assert ServerAt(spans, k);
    }
    running := begun - ended;
    assert |begun - ended| == |begun| - |ended|;
  }

  // ---- The whole validation ----

  /** What acceptance demands, apart from the depth guard of the owner climb. */
  ghost predicate CaptureMatches(spans: Capture, ledger: seq<Request>, checks: Checks) {
    && LedgerOk(ledger)
    && (exists requests :: IsLedgerMap(ledger, requests) && RequestsMatch(spans, requests, checks))
    && Concurrent(spans)
  }

  ghost predicate RequestsMatch(spans: Capture, requests: map<string, Request>, checks: Checks) {
    && ServersOk(spans, requests, checks)
    && (forall key :: key in spans ==> MarkerOk(spans, requests, checks, key))
    && CountsMatch(spans, requests)
  }

  lemma LedgerMapUnique(ledger: seq<Request>, a: map<string, Request>, b: map<string, Request>)
    requires IsLedgerMap(ledger, a) && IsLedgerMap(ledger, b)
    ensures a == b
  {
    forall id
      ensures id in a <==> id in b
      ensures id in a ==> a[id] == b[id]
    {
      if id in a {
        var i :| 0 <= i < |ledger| && ledger[i].id == id;
      }
      if id in b {
        var i :| 0 <= i < |ledger| && ledger[i].id == id;
      }
    }
  }

  /** serverOrder and ownerOrder are the orders the two map iterations happen to take. */
  method Validate(spans: Capture, ledger: seq<Request>, checks: Checks, serverOrder: seq<Identity>,
                  ownerOrder: seq<Identity>)
    returns (ok: bool)
    requires IsOrder(spans, serverOrder) && IsOrder(spans, ownerOrder)
    ensures ok <==> CaptureMatches(spans, ledger, checks) && OrderAccepted(spans, ownerOrder)
  {
    var requests := ReadLedger(ledger);
    if requests.None? {
      return false;
    }
    if CaptureMatches(spans, ledger, checks) {
      var other :| IsLedgerMap(ledger, other) && RequestsMatch(spans, other, checks);
      LedgerMapUnique(ledger, requests.value, other);
    }
    var servers := MatchServers(spans, requests.value, checks, serverOrder);
    if servers.None? {
      return false;
    }
    assert RequestedServers(spans, requests.value) by {
      forall s | ServerAt(spans, s)
        ensures spans[s].requestId in requests.value && spans[s].requestId != ""
      {
        assert ServerOk(spans, requests.value, checks, s);
        var i :| 0 <= i < |ledger| && ledger[i].id == spans[s].requestId;
        assert Complete(ledger[i]);
      }
    }
    var counts := CountSql(spans, requests.value, checks, ownerOrder);
    if counts.None? {
      return false;
    }
    var same := CompareCounts(spans, requests.value, counts.value);
    if !same {
      return false;
    }
    ok := ServersOverlap(spans, servers.value);
  }

  // ---- What an accepted capture guarantees, whatever orders the iterations took ----

  /** The chain of every captured span reaches exactly one server span, above which
      nothing is captured, and its owner is that server's request, which the ledger
      lists exactly once. */
  lemma EverySpanHasOneRequest(spans: Capture, ledger: seq<Request>, checks: Checks, order: seq<Identity>,
                               key: Identity)
    returns (i: nat)
    requires IsOrder(spans, order) && CaptureMatches(spans, ledger, checks) && OrderAccepted(spans, order)
    requires key in spans
    ensures Owned(spans, key) && ServerAt(spans, ServerOf(spans, key))
    ensures forall k :: k in Chain(spans, key) && ServerAt(spans, k) ==> k == ServerOf(spans, key)
    ensures ParentKey(ServerOf(spans, key), spans[ServerOf(spans, key)]) !in spans
    ensures i < |ledger| && ledger[i].id == OwnerId(spans, key)
    ensures forall j :: 0 <= j < |ledger| && ledger[j].id == OwnerId(spans, key) ==> j == i
  {
    assert key in order;
    AcceptedIsOwned(spans, order, key);
    OwnedFacts(spans, key);
    var server := ServerOf(spans, key);
    assert ServerAt(spans, server);
    forall k | k in Chain(spans, key) && ServerAt(spans, k)
      ensures k == server
    {
      ChainClosed(spans, key, k);
    }
    i := RequestOfServer(spans, ledger, checks, server);
  }

  lemma RequestOfServer(spans: Capture, ledger: seq<Request>, checks: Checks, server: Identity) returns (i: nat)
    requires CaptureMatches(spans, ledger, checks) && ServerAt(spans, server)
    ensures ParentKey(server, spans[server]) !in spans
    ensures i < |ledger| && ledger[i].id == spans[server].requestId
    ensures forall j :: 0 <= j < |ledger| && ledger[j].id == spans[server].requestId ==> j == i
  {
    var requests :| IsLedgerMap(ledger, requests) && RequestsMatch(spans, requests, checks);
    assert ServerOk(spans, requests, checks, server);
    i :| 0 <= i < |ledger| && ledger[i].id == spans[server].requestId;
    forall j | 0 <= j < |ledger| && ledger[j].id == ledger[i].id
      ensures j == i
    {
      OneEntry(ledger, i, j);
    }
  }

  lemma OneEntry(ledger: seq<Request>, i: nat, j: nat)
    requires LedgerOk(ledger) && i < |ledger| && j < |ledger| && ledger[i].id == ledger[j].id
    ensures i == j
  {
  }

  /** Every ledger entry has exactly one server span and owns exactly as many SQL
      spans as it executed queries. */
  lemma EveryRequestIsCaptured(spans: Capture, ledger: seq<Request>, checks: Checks, i: nat) returns (server: Identity)
    requires CaptureMatches(spans, ledger, checks) && i < |ledger|
    ensures ServerAt(spans, server) && spans[server].requestId == ledger[i].id
    ensures forall k :: ServerAt(spans, k) && spans[k].requestId == ledger[i].id ==> k == server
    ensures |SqlSpans(spans, spans.Keys, ledger[i].id)| == ledger[i].sqlCount
  {
    var requests :| IsLedgerMap(ledger, requests) && RequestsMatch(spans, requests, checks);
    assert ledger[i].id in requests;
    server :| ServerAt(spans, server) && spans[server].requestId == ledger[i].id;
  }
}
