/** The stress checker's verdict in plain terms: which spans are servers, how a span is
    owned, what the ledger must hold, and when servers run at once. */
module StressLaws {
  import opened Basics
  import opened Spans
  import opened Ownership
  import opened StressValidation

  // ---- Servers that run at once ----

  /** The five span names of workload servers. */
  predicate ServerName(name: string) {
    name in {"aiohttp.request", "django.request", "rack.request", "gin.request", "http.request"}
  }

  ghost predicate NamedServer(spans: Capture, k: Identity) {
    k in spans && ServerName(spans[k].name)
  }

  /** The server span has begun and its duration has not passed. */
  ghost predicate Running(spans: Capture, k: Identity, t: int) {
    NamedServer(spans, k) && spans[k].start <= t < spans[k].start + spans[k].duration
  }

  ghost predicate TwoAtOnce(spans: Capture) {
    exists t, k, l :: k != l && Running(spans, k, t) && Running(spans, l, t)
  }

  lemma ServerIff(s: Span)
    ensures IsServer(s) <==> ServerName(s.name)
  {
  }

  /** A sum of two 64-bit numbers wraps around at 2 to the 63rd. */
  lemma EndIs(s: Span)
    requires -0x8000_0000_0000_0000 <= s.start + s.duration < 0x1_0000_0000_0000_0000
    ensures EndOf(s) == if s.start + s.duration < 0x8000_0000_0000_0000 then s.start + s.duration
                        else s.start + s.duration - 0x1_0000_0000_0000_0000
  {
  }

  /** While no end exceeds 64 bits, the check passes exactly when two different servers run
      at the same instant. */
  lemma OverlapIff(spans: Capture)
    requires forall k :: NamedServer(spans, k) ==>
               spans[k].duration > 0 && -0x8000_0000_0000_0000 <= spans[k].start &&
               spans[k].start + spans[k].duration < 0x8000_0000_0000_0000
    ensures Concurrent(spans) <==> TwoAtOnce(spans)
  {
    hide Concurrent, EndOf, IsServer, ServerName;
    forall k
      ensures ServerAt(spans, k) <==> NamedServer(spans, k)
      ensures NamedServer(spans, k) ==> EndOf(spans[k]) == spans[k].start + spans[k].duration
      ensures forall t :: RunsAt(spans, k, t) <==> Running(spans, k, t)
    {
      if k in spans {
        ServerIff(spans[k]);
        if NamedServer(spans, k) {
          EndIs(spans[k]);
        }
      }
    }
    ConcurrentSharesInstant(spans);
  }

  // ---- Owners ----

  /** The path climbs from parent to parent, within the captured spans and one trace, to the
      first server span. */
  ghost predicate Climbs(spans: Capture, path: seq<Identity>) {
    && path != []
    && (forall i :: 0 <= i < |path| ==> path[i] in spans)
    && (forall i, j :: 0 <= i < |path| - 1 && j == i + 1 ==> ClimbsTo(spans, path[i], path[j]))
    && ServerName(spans[path[|path| - 1]].name)
  }

  ghost predicate ClimbsTo(spans: Capture, key: Identity, parent: Identity)
    requires key in spans
  {
    && !ServerName(spans[key].name) && spans[key].parentId != 0
    && parent.low == key.low && parent.high == key.high && parent.span == spans[key].parentId
  }

  lemma {:induction false} ClimbOf(spans: Capture, key: Identity, n: nat, server: Identity)
    returns (path: seq<Identity>)
    requires OwnedAt(spans, key, n, server)
    ensures Climbs(spans, path) && |path| == n + 1 && path[0] == key && path[n] == server
    decreases n
  {
    hide ServerName, IsServer;
    ServerIff(spans[key]);
    if IsServer(spans[key]) {
      path := [key];
    } else {
      var rest := ClimbOf(spans, ParentKey(key, spans[key]), n - 1, server);
      path := [key] + rest;
      assert ClimbsTo(spans, key, rest[0]);
      forall i | 0 <= i < |path| - 1
        ensures ClimbsTo(spans, path[i], path[i + 1])
      {
        if i > 0 {
          assert ClimbsTo(spans, rest[i - 1], rest[i]);
        }
      }
    }
  }

  lemma {:induction false} ClimbOwns(spans: Capture, path: seq<Identity>)
    requires Climbs(spans, path)
    ensures OwnedAt(spans, path[0], |path| - 1, path[|path| - 1])
    decreases |path|
  {
    hide ServerName, IsServer;
    ServerIff(spans[path[0]]);
    if |path| > 1 {
      assert ClimbsTo(spans, path[0], path[1]);
      var rest := path[1..];
      forall i, j | 0 <= i < |rest| - 1 && j == i + 1
        ensures ClimbsTo(spans, rest[i], rest[j])
      {
        assert ClimbsTo(spans, path[i + 1], path[j + 1]);
      }
      ClimbOwns(spans, rest);
      assert ParentKey(path[0], spans[path[0]]) == path[1];
    }
  }

  ghost predicate LeadsTo(spans: Capture, key: Identity, server: Identity) {
    exists path :: Climbs(spans, path) && path[0] == key && path[|path| - 1] == server
  }

  ghost predicate ShortClimb(spans: Capture, key: Identity) {
    exists path :: Climbs(spans, path) && path[0] == key && |path| <= 65
  }

  lemma OwnerIsLed(spans: Capture, key: Identity)
    ensures Owned(spans, key) <==> exists server :: LeadsTo(spans, key, server)
    ensures Owned(spans, key) ==> forall server :: LeadsTo(spans, key, server) <==> server == ServerOf(spans, key)
    ensures Owned(spans, key) && Distance(spans, key) <= 64 <==> ShortClimb(spans, key)
  {
    hide OwnedAt, Distance, ServerOf, ServerName, ClimbsTo;
    forall path | Climbs(spans, path) && path[0] == key
      ensures OwnedAt(spans, key, |path| - 1, path[|path| - 1])
    {
      ClimbOwns(spans, path);
    }
    if Owned(spans, key) {
      OwnedFacts(spans, key);
      var path := ClimbOf(spans, key, Distance(spans, key), ServerOf(spans, key));
      assert LeadsTo(spans, key, ServerOf(spans, key));
      assert Distance(spans, key) <= 64 ==> ShortClimb(spans, key);
    }
    if server :| LeadsTo(spans, key, server) {
      assert Owned(spans, key);
    }
    if ShortClimb(spans, key) {
      var path :| Climbs(spans, path) && path[0] == key && |path| <= 65;
      assert Owned(spans, key);
      OwnedFacts(spans, key);
    }
  }

  /** All orders of the map iteration accept exactly when every span has a climb of at most
      65 spans, some order does exactly when every span has a climb. */
  lemma OrdersAccept(spans: Capture)
    ensures (forall order :: IsOrder(spans, order) ==> OrderAccepted(spans, order)) <==>
            forall key :: key in spans ==> ShortClimb(spans, key)
    ensures (exists order :: IsOrder(spans, order) && OrderAccepted(spans, order)) <==>
            forall key :: key in spans ==> exists server :: LeadsTo(spans, key, server)
  {
    hide OrderAccepted, IsOrder, ShortClimb, Owned, Distance, LeadsTo;
    forall key
      ensures Owned(spans, key) && Distance(spans, key) <= MAX_VISITING <==> ShortClimb(spans, key)
      ensures Owned(spans, key) <==> exists server :: LeadsTo(spans, key, server)
    {
      OwnerIsLed(spans, key);
    }
    EveryOrderAccepts(spans);
    SomeOrderAccepts(spans);
  }

  // ---- The ledger ----

  ghost predicate EntryComplete(r: Request) {
    r.sqlCount >= 0 && r.id != "" && r.sqlMarker != "" && r.status >= 100 && r.end > r.start
  }

  /** Complete entries with IDs of their own; each execution numbers its entries from 1 on,
      each once and without a gap. */
  ghost predicate LedgerHolds(ledger: seq<Request>) {
    && (forall i :: 0 <= i < |ledger| ==> EntryComplete(ledger[i]))
    && (forall i, j :: 0 <= i < j < |ledger| ==> ledger[i].id != ledger[j].id)
    && (forall i, j :: 0 <= i < j < |ledger| && ledger[i].execution == ledger[j].execution ==>
          ledger[i].sequence != ledger[j].sequence)
    && (forall i :: 0 <= i < |ledger| ==> ledger[i].sequence >= 1)
    && (forall i :: 0 <= i < |ledger| && ledger[i].sequence > 1 ==>
       HasEntry(ledger, ledger[i].execution, ledger[i].sequence - 1))
  }

  ghost predicate HasEntry(ledger: seq<Request>, execution: string, n: int) {
    exists j :: 0 <= j < |ledger| && ledger[j].execution == execution && ledger[j].sequence == n
  }

  ghost predicate Gapless(s: set<int>) {
    forall x :: x in s ==> x >= 1 && (x > 1 ==> x - 1 in s)
  }

  function FirstNumbers(m: nat): (r: set<int>)
    ensures |r| == m && forall x :: x in r <==> 1 <= x <= m
  {
    if m == 0 then {} else FirstNumbers(m - 1) + {m}
  }

  lemma {:induction false} Below(s: set<int>, x: int, n: int)
    requires Gapless(s) && x in s && 1 <= n <= x
    ensures n in s
    decreases x - n
  {
    if n < x {
      Below(s, x - 1, n);
    }
  }

  lemma MissingBounds(s: set<int>, n: nat)
    requires Gapless(s) && n >= 1 && n !in s
    ensures |s| <= n - 1
  {
    forall x | x in s
      ensures 1 <= x <= n - 1
    {
      if x >= n {
        Below(s, x, n);
      }
    }
    var lower := FirstNumbers(n - 1);
    assert s <= lower;
    assert |lower - s| == |lower| - |s|;
  }

  lemma NumberedIff(s: set<int>)
    ensures Numbered(s) <==> Gapless(s)
  {
    if Numbered(s) {
      var first := FirstNumbers(|s|);
      assert first <= s;
      SubsetOfSameSize(first, s);
    }
    if Gapless(s) {
      forall n | 1 <= n <= |s|
        ensures n in s
      {
        if n !in s {
          MissingBounds(s, n);
        }
      }
    }
  }

  lemma SequencesGapless(ledger: seq<Request>, execution: string)
    ensures Gapless(Sequences(ledger, execution)) <==>
            forall i :: 0 <= i < |ledger| && ledger[i].execution == execution ==>
              ledger[i].sequence >= 1 &&
              (ledger[i].sequence > 1 ==> HasEntry(ledger, execution, ledger[i].sequence - 1))
  {
    var s := Sequences(ledger, execution);
    forall n
      ensures n in s <==> HasEntry(ledger, execution, n)
    {
    }
    forall i | 0 <= i < |ledger| && ledger[i].execution == execution
      ensures ledger[i].sequence in s
    {
    }
  }

  lemma LedgerIff(ledger: seq<Request>)
    ensures LedgerOk(ledger) <==> LedgerHolds(ledger)
  {
    hide Sequences, Gapless, Numbered, HasEntry;
    forall i | 0 <= i < |ledger|
      ensures Numbered(Sequences(ledger, ledger[i].execution)) <==> Gapless(Sequences(ledger, ledger[i].execution))
    {
      NumberedIff(Sequences(ledger, ledger[i].execution));
      SequencesGapless(ledger, ledger[i].execution);
    }
    forall i | 0 <= i < |ledger|
      ensures Gapless(Sequences(ledger, ledger[i].execution)) <==>
              forall j :: 0 <= j < |ledger| && ledger[j].execution == ledger[i].execution ==>
                ledger[j].sequence >= 1 &&
                (ledger[j].sequence > 1 ==> HasEntry(ledger, ledger[i].execution, ledger[j].sequence - 1))
    {
      SequencesGapless(ledger, ledger[i].execution);
    }
  }

  // ---- The verdict ----

  /** The entry that a server's request ID names. */
  ghost predicate EntryOf(ledger: seq<Request>, i: nat, id: string) {
    i < |ledger| && ledger[i].id == id
  }

  ghost predicate LedTo(spans: Capture, key: Identity, id: string) {
    exists server :: server in spans && LeadsTo(spans, key, server) && spans[server].requestId == id
  }

  ghost predicate ServerMatched(spans: Capture, ledger: seq<Request>, checks: Checks, key: Identity)
    requires key in spans
  {
    && (forall parent :: parent in spans ==>
          !(parent.low == key.low && parent.high == key.high && parent.span == spans[key].parentId))
    && exists i: nat :: EntryOf(ledger, i, spans[key].requestId) && checks.serverMatches(key, spans[key], ledger[i])
  }

  ghost predicate SqlMatched(spans: Capture, ledger: seq<Request>, checks: Checks, key: Identity)
    requires key in spans
  {
    spans[key].spanType == "sql" ==>
      exists i: nat :: i < |ledger| && LedTo(spans, key, ledger[i].id) && checks.sqlMatches(spans[key], ledger[i])
  }

  ghost predicate HasServer(spans: Capture, id: string) {
    exists k :: NamedServer(spans, k) && spans[k].requestId == id
  }

  /** Servers and entries correspond one to one, with nothing captured above a server; every
      SQL span agrees with its entry, and every entry owns as many as it counts. */
  ghost predicate Matched(spans: Capture, ledger: seq<Request>, checks: Checks) {
    && ledger != []
    && (forall k :: NamedServer(spans, k) ==> ServerMatched(spans, ledger, checks, k))
    && (forall k, l :: NamedServer(spans, k) && NamedServer(spans, l) && spans[k].requestId == spans[l].requestId ==>
          k == l)
    && (forall i :: 0 <= i < |ledger| ==> HasServer(spans, ledger[i].id))
    && (forall k :: k in spans ==> SqlMatched(spans, ledger, checks, k))
    && (forall i :: 0 <= i < |ledger| ==> |SqlLedTo(spans, ledger[i].id)| == ledger[i].sqlCount)
  }

  ghost function SqlLedTo(spans: Capture, id: string): set<Identity> {
    set k | k in spans && spans[k].spanType == "sql" && LedTo(spans, k, id)
  }

  lemma LedToIsOwner(spans: Capture, key: Identity)
    requires Owned(spans, key)
    ensures forall id :: LedTo(spans, key, id) <==> OwnerId(spans, key) == id
  {
    hide LeadsTo;
    OwnedFacts(spans, key);
    OwnerIsLed(spans, key);
  }

  lemma {:induction false} LedgerMap(ledger: seq<Request>) returns (requests: map<string, Request>)
    requires forall i, j :: 0 <= i < j < |ledger| ==> ledger[i].id != ledger[j].id
    ensures IsLedgerMap(ledger, requests)
    decreases |ledger|
  {
    if ledger == [] {
      requests := map[];
    } else {
      var n := |ledger| - 1;
      var before := LedgerMap(ledger[..n]);
      requests := before[ledger[n].id := ledger[n]];
      MapWithLast(ledger, n, before);
    }
  }

  lemma MapWithLast(ledger: seq<Request>, n: nat, before: map<string, Request>)
    requires |ledger| == n + 1 && IsLedgerMap(ledger[..n], before)
    requires forall i :: 0 <= i < n ==> ledger[i].id != ledger[n].id
    ensures IsLedgerMap(ledger, before[ledger[n].id := ledger[n]])
  {
    var init, next := ledger[..n], before[ledger[n].id := ledger[n]];
    forall i | 0 <= i < |ledger|
      ensures ledger[i].id in next && next[ledger[i].id] == ledger[i]
    {
      if i < n {
        assert init[i] == ledger[i];
      }
    }
    forall id | id in next
      ensures exists i :: 0 <= i < |ledger| && ledger[i].id == id
    {
      if id in before {
        var i :| 0 <= i < |init| && init[i].id == id;
        assert ledger[i].id == id;
      } else {
        assert ledger[n].id == id;
      }
    }
  }

  lemma ServersMatchedIff(spans: Capture, ledger: seq<Request>, requests: map<string, Request>, checks: Checks,
                          key: Identity)
    requires IsLedgerMap(ledger, requests) && key in spans
    ensures ServerOk(spans, requests, checks, key) <==> ServerMatched(spans, ledger, checks, key)
  {
    if ServerOk(spans, requests, checks, key) {
      var i :| 0 <= i < |ledger| && ledger[i].id == spans[key].requestId;
      assert EntryOf(ledger, i, spans[key].requestId);
    }
  }

  lemma SqlMatchedIff(spans: Capture, ledger: seq<Request>, requests: map<string, Request>, checks: Checks,
                      key: Identity)
    requires IsLedgerMap(ledger, requests) && key in spans && Owned(spans, key)
    ensures MarkerOk(spans, requests, checks, key) <==> SqlMatched(spans, ledger, checks, key)
  {
    hide LedTo, OwnerId;
    LedToIsOwner(spans, key);
    if MarkerOk(spans, requests, checks, key) && spans[key].spanType == "sql" {
      var i :| 0 <= i < |ledger| && ledger[i].id == OwnerId(spans, key);
      assert LedTo(spans, key, ledger[i].id);
    }
  }

  lemma SqlLedToIs(spans: Capture, id: string)
    requires forall key :: key in spans ==> Owned(spans, key)
    ensures SqlLedTo(spans, id) == SqlSpans(spans, spans.Keys, id)
  {
    hide LedTo, OwnerId, Owned;
    forall key | key in spans
      ensures LedTo(spans, key, id) <==> OwnerId(spans, key) == id
    {
      LedToIsOwner(spans, key);
    }
  }

  lemma RequestsMatchIff(spans: Capture, ledger: seq<Request>, requests: map<string, Request>, checks: Checks)
    requires IsLedgerMap(ledger, requests) && forall key :: key in spans ==> Owned(spans, key)
    ensures RequestsMatch(spans, requests, checks) <==> Matched(spans, ledger, checks)
  {
    hide LedTo, OwnerId, Owned, ServerOk, ServerMatched, MarkerOk, SqlMatched, ServerName, IsServer, SqlSpans, SqlLedTo,
         HasServer;
    forall key | key in spans
      ensures ServerAt(spans, key) <==> NamedServer(spans, key)
      ensures ServerOk(spans, requests, checks, key) <==> ServerMatched(spans, ledger, checks, key)
      ensures MarkerOk(spans, requests, checks, key) <==> SqlMatched(spans, ledger, checks, key)
    {
      ServerIff(spans[key]);
      ServersMatchedIff(spans, ledger, requests, checks, key);
      SqlMatchedIff(spans, ledger, requests, checks, key);
    }
    forall id
      ensures SqlLedTo(spans, id) == SqlSpans(spans, spans.Keys, id)
    {
      SqlLedToIs(spans, id);
    }
    assert requests == map[] <==> ledger == [] by {
      if ledger != [] {
        assert ledger[0].id in requests;
      }
    }
    ServersAndEntries(spans, ledger, requests);
    CountsAndEntries(spans, ledger, requests);
  }

  lemma HasServerIff(spans: Capture, id: string)
    ensures HasServer(spans, id) <==> exists key :: ServerAt(spans, key) && spans[key].requestId == id
  {
    hide ServerName, IsServer;
    if HasServer(spans, id) {
      var key :| NamedServer(spans, key) && spans[key].requestId == id;
      ServerIff(spans[key]);
      assert ServerAt(spans, key);
    }
    if key :| ServerAt(spans, key) && spans[key].requestId == id {
      ServerIff(spans[key]);
      assert NamedServer(spans, key);
    }
  }

  lemma ServersAndEntries(spans: Capture, ledger: seq<Request>, requests: map<string, Request>)
    requires IsLedgerMap(ledger, requests)
    ensures (forall id :: id in requests ==> exists key :: ServerAt(spans, key) && spans[key].requestId == id) <==>
            forall i :: 0 <= i < |ledger| ==> HasServer(spans, ledger[i].id)
  {
    hide HasServer, IsServer;
    forall id
      ensures HasServer(spans, id) <==> exists key :: ServerAt(spans, key) && spans[key].requestId == id
    {
      HasServerIff(spans, id);
    }
    if forall i :: 0 <= i < |ledger| ==> HasServer(spans, ledger[i].id) {
      forall id | id in requests
        ensures HasServer(spans, id)
      {
        var i :| 0 <= i < |ledger| && ledger[i].id == id;
      }
    }
  }

  lemma CountsAndEntries(spans: Capture, ledger: seq<Request>, requests: map<string, Request>)
    requires IsLedgerMap(ledger, requests)
    ensures CountsMatch(spans, requests) <==>
            forall i :: 0 <= i < |ledger| ==> |SqlSpans(spans, spans.Keys, ledger[i].id)| == ledger[i].sqlCount
  {
    hide SqlSpans;
  }

  /** The verdict on a capture whose spans are all owned, in terms of names, climbs and
      entries alone. */
  lemma VerdictIff(spans: Capture, ledger: seq<Request>, checks: Checks)
    requires forall key :: key in spans ==> exists server :: LeadsTo(spans, key, server)
    ensures CaptureMatches(spans, ledger, checks) <==>
            LedgerHolds(ledger) && Matched(spans, ledger, checks) && Concurrent(spans)
  {
    hide LeadsTo, Owned, LedgerOk, RequestsMatch, Matched, Concurrent;
    forall key | key in spans
      ensures Owned(spans, key)
    {
      OwnerIsLed(spans, key);
    }
    LedgerIff(ledger);
    if LedgerHolds(ledger) {
      var requests := LedgerMap(ledger);
      forall other | IsLedgerMap(ledger, other)
        ensures RequestsMatch(spans, other, checks) <==> Matched(spans, ledger, checks)
      {
        RequestsMatchIff(spans, ledger, other, checks);
      }
      assert IsLedgerMap(ledger, requests);
    }
  }

  /** Acceptance in some order of the map iterations, on captures whose server intervals fit
      64 bits. */
  lemma AcceptanceIff(spans: Capture, ledger: seq<Request>, checks: Checks)
    requires forall k :: NamedServer(spans, k) ==>
               spans[k].duration > 0 && -0x8000_0000_0000_0000 <= spans[k].start &&
               spans[k].start + spans[k].duration < 0x8000_0000_0000_0000
    ensures (exists order :: IsOrder(spans, order) && CaptureMatches(spans, ledger, checks) &&
                             OrderAccepted(spans, order)) <==>
            && (forall key :: key in spans ==> exists server :: LeadsTo(spans, key, server))
            && LedgerHolds(ledger) && Matched(spans, ledger, checks) && TwoAtOnce(spans)
  {
    hide LeadsTo, CaptureMatches, IsOrder, OrderAccepted, LedgerHolds, Matched, Concurrent, TwoAtOnce;
    OrdersAccept(spans);
    OverlapIff(spans);
    if forall key :: key in spans ==> exists server :: LeadsTo(spans, key, server) {
      VerdictIff(spans, ledger, checks);
    }
  }
}
