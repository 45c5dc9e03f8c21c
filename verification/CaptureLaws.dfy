/** What a request does, told by its path and its verb: which capture it works on, when an
    upload is accepted and what becomes of it, and what every control request answers. */
module CaptureLaws {
  import opened Wrappers
  import opened CaptureFile
  import opened Capture
  import opened CaptureRuns

  // ---- Which capture ----

  /** The request is answered by the OTLP capture alone. */
  ghost predicate WorksOnOtlp(s: State, verb: string, path: string, env: Environment, after: (State, Response)) {
    after.0.limit == s.limit && after.0.datadog == s.datadog &&
    (after.0.otlp, after.1) == Serve(s.otlp, s.limit, false, verb, path, env)
  }

  ghost predicate WorksOnDatadog(s: State, verb: string, path: string, env: Environment, after: (State, Response)) {
    after.0.limit == s.limit && after.0.otlp == s.otlp &&
    (after.0.datadog, after.1) == Serve(s.datadog, s.limit, true, verb, path, env)
  }

  /** Native uploads belong to the Datadog capture, whether or not the protocol is named. */
  lemma NativeIntake(s: State, verb: string, path: string, env: Environment)
    requires path == "/v0.4/traces" || path == "/v0.5/traces"
    ensures WorksOnDatadog(s, verb, path, env, Step(s, Request(verb, path, None, env)))
    ensures WorksOnDatadog(s, verb, path, env, Step(s, Request(verb, path, Some("datadog"), env)))
    ensures Step(s, Request(verb, path, Some("otlp"), env)) == (s, Response(400, []))
  {
    hide Serve;
  }

  /** OTLP uploads belong to the OTLP capture. */
  lemma OpenIntake(s: State, verb: string, path: string, env: Environment)
    requires path == "/v1/traces" || path == "/v1/metrics" || path == "/v1/logs"
    ensures WorksOnOtlp(s, verb, path, env, Step(s, Request(verb, path, None, env)))
    ensures WorksOnOtlp(s, verb, path, env, Step(s, Request(verb, path, Some("otlp"), env)))
    ensures Step(s, Request(verb, path, Some("datadog"), env)) == (s, Response(400, []))
  {
    hide Serve;
  }

  /** Every other path works on the capture that is named, and on the OTLP one by default. */
  lemma NamedProtocol(s: State, verb: string, path: string, env: Environment)
    requires path !in {"/v0.4/traces", "/v0.5/traces", "/v1/traces", "/v1/metrics", "/v1/logs"}
    ensures WorksOnOtlp(s, verb, path, env, Step(s, Request(verb, path, None, env)))
    ensures WorksOnOtlp(s, verb, path, env, Step(s, Request(verb, path, Some("otlp"), env)))
    ensures WorksOnDatadog(s, verb, path, env, Step(s, Request(verb, path, Some("datadog"), env)))
  {
    hide Serve;
  }

  /** A protocol of any other name is refused on every path. */
  lemma UnknownProtocol(s: State, verb: string, path: string, name: string, env: Environment)
    requires name != "otlp" && name != "datadog"
    ensures Step(s, Request(verb, path, Some(name), env)) == (s, Response(400, []))
  {
  }

  // ---- Uploads ----

  /** What the record of the payload is charged. */
  function Charge(u: Upload, d: Payload): nat
    requires d.size.Some?
  {
    2 * d.size.value + d.extra + u.body + Sum(u.headers) + Sum(u.others)
  }

  /** The upload decodes to the payload under the budget that the capture has left. */
  ghost predicate Decodes(p: Protocol, limit: nat, u: Upload, d: Payload) {
    && u.refusal.None?
    && p.counters.records < 4096 && p.counters.retained + u.body <= limit
    && u.decode(limit - p.counters.retained - u.body) == Accepted(d)
  }

  /** The payload is within the size limit, eight megabytes for native uploads to a stress
      capture and one megabyte for all others, and its charge within the capture limit. */
  ghost predicate Affordable(p: Protocol, limit: nat, native: bool, u: Upload, d: Payload) {
    && d.size.Some?
    && d.size.value <= (if native && limit > 4194304 then 8388608 else 1048576)
    && Charge(u, d) <= 18446744073709551615
    && p.counters.retained + Charge(u, d) <= limit
  }

  ghost predicate Accepts(p: Protocol, limit: nat, native: bool, env: Environment, d: Payload) {
    Decodes(p, limit, env.upload, d) && Affordable(p, limit, native, env.upload, d) && env.write.ok
  }

  /** The upload has become the last live record, and it is counted by its signal. */
  ghost predicate Stored(p: Protocol, q: Protocol, signal: Signal, u: Upload, d: Payload) {
    && d.size.Some?
    && q.live == p.live + [Record(signal, d.spans, Charge(u, d), d.content)]
    && q.frozen == p.frozen && q.runs == p.runs && q.failures == p.failures
    && q.counters.overflow == p.counters.overflow
    && q.counters.records == p.counters.records + 1
    && q.counters.retained == p.counters.retained + Charge(u, d)
    && q.counters.traceRequests == p.counters.traceRequests + (if signal == Traces then 1 else 0)
    && q.counters.traceSpans == p.counters.traceSpans + (if signal == Traces then d.spans else 0)
    && q.counters.metricRequests == p.counters.metricRequests + (if signal == Metrics then 1 else 0)
    && q.counters.logRequests == p.counters.logRequests + (if signal == Logs then 1 else 0)
    && (Durable(p) ==> Durable(q))
  }

  /** Nothing is stored; only the overflow flag may have been raised, and the file torn
      where writing it failed. */
  ghost predicate Unstored(p: Protocol, q: Protocol, overflow: bool, wrote: bool) {
    q == p.(counters := p.counters.(overflow := p.counters.overflow || overflow), file := if wrote then q.file
      else p.file)
  }

  /** The protocol, before and after a step, that uploads to the path work on. */
  ghost predicate Moves(s: State, t: State, native: bool, p: Protocol, q: Protocol) {
    if native then t == s.(datadog := q) && p == s.datadog else t == s.(otlp := q) && p == s.otlp
  }

  ghost predicate UploadPath(path: string, native: bool, signal: Signal) {
    || (path == "/v0.4/traces" && native && signal == Traces)
    || (path == "/v0.5/traces" && native && signal == Traces)
    || (path == "/v1/traces" && !native && signal == Traces)
    || (path == "/v1/metrics" && !native && signal == Metrics)
    || (path == "/v1/logs" && !native && signal == Logs)
  }

  lemma UploadServed(p: Protocol, limit: nat, native: bool, verb: string, path: string, signal: Signal,
                     env: Environment)
    requires UploadPath(path, native, signal) && (verb == "POST" || (native && verb == "PUT"))
    ensures Serve(p, limit, native, verb, path, env) == Ingest(p, limit, native, Some(signal), env.upload, env.write)
  {
    hide Ingest;
  }

  lemma ChargeIs(u: Upload, d: Payload)
    requires d.size.Some?
    ensures RetainedBytes(d.size.value, d.extra, u.body, u.headers, u.others) ==
            if Charge(u, d) <= 18446744073709551615 then Some(Charge(u, d)) else None
  {
    hide RetainedBytes, Sum;
    RetainedBytesExact(d.size.value, d.extra, u.body, u.headers, u.others);
  }

  lemma StoredWhenAccepted(p: Protocol, limit: nat, native: bool, signal: Signal, env: Environment, d: Payload)
    requires Accepts(p, limit, native, env, d)
    ensures var (q, response) := Ingest(p, limit, native, Some(signal), env.upload, env.write);
            response == Response(200, []) && Stored(p, q, signal, env.upload, d)
  {
    hide RetainedBytes, Charge, Durable;
    var u := env.upload;
    ChargeIs(u, d);
    if Durable(p) {
      StoreIsDurable(p, Record(signal, d.spans, Charge(u, d), d.content), env.write);
    }
  }

  lemma StoreIsDurable(p: Protocol, r: Record, write: Outcome)
    requires write.ok && Durable(p)
    ensures Durable(Store(p, r, write).0)
  {
    hide Stores, Elements;
    var q := Store(p, r, write).0;
    assert All(q) == All(p) + [r];
    StoresIsClosed(p.file, All(p));
    AppendStores(p.file, All(p), r);
  }

  /** An upload is answered with 200 exactly when its content type, its encoding and its
      payload are accepted, all limits hold and the write succeeds. It then is a record
      with the signal of its path and the spans and content of its payload. */
  lemma UploadAnswered(s: State, verb: string, path: string, native: bool, signal: Signal, env: Environment)
    returns (p: Protocol, q: Protocol)
    requires UploadPath(path, native, signal) && (verb == "POST" || (native && verb == "PUT"))
    ensures var (t, response) := Step(s, Request(verb, path, None, env));
            && Moves(s, t, native, p, q)
            && (response.status == 200 <==> exists d :: Accepts(p, s.limit, native, env, d))
            && (forall d :: Accepts(p, s.limit, native, env, d) ==> Stored(p, q, signal, env.upload, d))
            && (response.status != 200 ==> exists overflow, wrote :: Unstored(p, q, overflow, wrote))
  {
    hide Serve, Ingest, Accepts, Stored;
    if native {
      NativeIntake(s, verb, path, env);
    } else {
      OpenIntake(s, verb, path, env);
    }
    p := if native then s.datadog else s.otlp;
    UploadServed(p, s.limit, native, verb, path, signal, env);
    var (after, response) := Ingest(p, s.limit, native, Some(signal), env.upload, env.write);
    q := after;
    forall d | Accepts(p, s.limit, native, env, d)
      ensures response == Response(200, []) && Stored(p, q, signal, env.upload, d)
    {
      StoredWhenAccepted(p, s.limit, native, signal, env, d);
    }
    if response.status == 200 {
      var d := AcceptedWhenOk(p, s.limit, native, signal, env);
    } else {
      var overflow, wrote := UnstoredUnlessOk(p, s.limit, native, signal, env);
    }
  }

  lemma AcceptedWhenOk(p: Protocol, limit: nat, native: bool, signal: Signal, env: Environment) returns (d: Payload)
    requires Ingest(p, limit, native, Some(signal), env.upload, env.write).1.status == 200
    ensures Accepts(p, limit, native, env, d)
  {
    hide RetainedBytes, Charge, FileAfter, Add;
    var u := env.upload;
    d := u.decode(limit - p.counters.retained - u.body).payload;
    ChargeIs(u, d);
  }

  lemma UnstoredUnlessOk(p: Protocol, limit: nat, native: bool, signal: Signal, env: Environment)
    returns (overflow: bool, wrote: bool)
    requires Ingest(p, limit, native, Some(signal), env.upload, env.write).1.status != 200
    ensures Unstored(p, Ingest(p, limit, native, Some(signal), env.upload, env.write).0, overflow, wrote)
  {
    hide RetainedBytes, FileAfter, Add;
    var q := Ingest(p, limit, native, Some(signal), env.upload, env.write).0;
    overflow, wrote := q.counters.overflow && !p.counters.overflow, q.file != p.file;
  }

  // ---- Why an upload is refused ----

  /** The first check that fails decides the status and whether the overflow flag is raised. */
  lemma UploadRefused(s: State, verb: string, path: string, native: bool, signal: Signal, env: Environment)
    requires UploadPath(path, native, signal) && (verb == "POST" || (native && verb == "PUT"))
    ensures var p, u := if native then s.datadog else s.otlp, env.upload;
            var (t, response) := Step(s, Request(verb, path, None, env));
            var q := if native then t.datadog else t.otlp;
            && (u.refusal.Some? ==> response.status == u.refusal.value && q == p)
            && (u.refusal.None? && (p.counters.records >= 4096 || p.counters.retained + u.body > s.limit) ==>
                  response.status == 413 && Unstored(p, q, true, false))
            && (u.refusal.None? && p.counters.records < 4096 && p.counters.retained + u.body <= s.limit ==>
                  match u.decode(s.limit - p.counters.retained - u.body)
                  case Refused(overBudget) => response.status == 400 && Unstored(p, q, overBudget, false)
                  case Accepted(d) =>
                    && (d.size.None? ==> response.status == 400 && q == p)
                    && (d.size.Some? && d.size.value > (if native && s.limit > 4194304 then 8388608 else 1048576) ==>
                          response.status == 413 && Unstored(p, q, true, false))
                    && (d.size.Some? && d.size.value <= (if native && s.limit > 4194304 then 8388608 else 1048576) ==>
                          && (Charge(u, d) > 18446744073709551615 ==> response.status == 413 && q == p)
                          && (Charge(u, d) <= 18446744073709551615 && p.counters.retained + Charge(u, d) > s.limit ==>
                                response.status == 413 && Unstored(p, q, true, false))
                          && (Affordable(p, s.limit, native, u, d) && !env.write.ok ==>
                                response.status == 500 && q == p.(file := env.write.left))))
  {
    hide Serve, RetainedBytes, Charge;
    if native {
      NativeIntake(s, verb, path, env);
    } else {
      OpenIntake(s, verb, path, env);
    }
    var p, u := if native then s.datadog else s.otlp, env.upload;
    UploadServed(p, s.limit, native, verb, path, signal, env);
    if u.refusal.None? && p.counters.records < 4096 && p.counters.retained + u.body <= s.limit {
      var decoding := u.decode(s.limit - p.counters.retained - u.body);
      if decoding.Accepted? && decoding.payload.size.Some? {
        ChargeIs(u, decoding.payload);
      }
    }
  }

  // ---- Control requests ----

  /** Reading: neither health, information nor statistics change anything. */
  lemma ReadsChangeNothing(p: Protocol, limit: nat, native: bool, path: string, env: Environment)
    requires path in {"/info", "/healthz", "/stats"}
    ensures Serve(p, limit, native, "GET", path, env) == (p, Response(200, []))
  {
  }

  /** A dump moves all live records behind the snapshot, sends them all and writes them. */
  lemma DumpSends(p: Protocol, limit: nat, native: bool, env: Environment)
    ensures var all := (if p.frozen.Some? then p.frozen.value else []) + p.live;
            var (q, response) := Serve(p, limit, native, "GET", "/dump", env);
            && q == p.(live := [], frozen := Some(all), file := q.file)
            && (env.write.ok ==> response == Response(200, all) && Stores(q.file, all))
            && (!env.write.ok ==> response == Response(500, []) && q.file == env.write.left)
  {
    hide Stores, Pretty;
    var all := (if p.frozen.Some? then p.frozen.value else []) + p.live;
    assert all + [] == all;
    PrettyStores(all);
  }

  /** The Scheme dump does the same without writing. */
  lemma SchemeDumpSends(p: Protocol, limit: nat, native: bool, env: Environment)
    ensures var all := (if p.frozen.Some? then p.frozen.value else []) + p.live;
            Serve(p, limit, native, "GET", "/dump.scm", env) ==
              (p.(live := [], frozen := Some(all)), if env.prints then Response(200, all) else Response(500, []))
  {
  }

  /** What a reset leaves of a list of records: those that survive, in their order. */
  ghost predicate Drops(before: seq<Record>, after: seq<Record>, path: string) {
    exists at :: DropsAt(before, after, path, at)
  }

  predicate Survives(path: string, signal: Signal) {
    (path == "/reset/traces" && signal != Traces) || (path == "/reset/traces-and-metrics" && signal == Logs)
  }

  ghost predicate DropsAt(before: seq<Record>, after: seq<Record>, path: string, at: seq<nat>) {
    && |at| == |after|
    && (forall k :: 0 <= k < |at| ==> at[k] < |before| && after[k] == before[at[k]])
    && (forall j, k :: 0 <= j < k < |at| ==> at[j] < at[k])
    && (forall i :: 0 <= i < |before| ==> (i in at <==> Survives(path, before[i].signal)))
  }

  lemma {:induction false} KeptAt(records: seq<Record>, path: string) returns (at: seq<nat>)
    requires path in {"/reset", "/reset/traces", "/reset/traces-and-metrics"}
    ensures DropsAt(records, Kept(records, ScopeOf(path)), path, at)
  {
    if records == [] {
      at := [];
    } else {
      var n := |records| - 1;
      var before := KeptAt(records[..n], path);
      assert forall k :: 0 <= k < |before| ==> before[k] in before;
      if Survives(path, records[n].signal) {
        at := before + [n];
      } else {
        at := before;
      }
      assert forall i :: 0 <= i < n ==> records[..n][i] == records[i];
      assert n !in before;
    }
  }

  lemma KeptDrops(records: seq<Record>, path: string)
    requires path in {"/reset", "/reset/traces", "/reset/traces-and-metrics"}
    ensures Drops(records, Kept(records, ScopeOf(path)), path)
  {
    hide Kept, ScopeOf, DropsAt;
    var at := KeptAt(records, path);
  }

  lemma FoldRecounts(q: Protocol)
    requires q.counters == Fold(All(q))
    ensures Recounted(q) && !q.counters.overflow
  {
    hide Fold, Charges, SpanCounts;
    FoldMeaning(All(q));
    FoldFacts(All(q));
  }

  /** A reset drops from both parts the records that its path names and keeps the others in
      order, clears the validation statistics and the overflow flag, counts afresh and writes. */
  lemma ResetDrops(p: Protocol, limit: nat, native: bool, path: string, env: Environment)
    requires path in {"/reset", "/reset/traces", "/reset/traces-and-metrics"}
    ensures var (q, response) := Serve(p, limit, native, "POST", path, env);
            && Drops(p.live, q.live, path)
            && (path == "/reset" ==> q.live == [] && q.frozen.None?)
            && (path != "/reset" ==> (q.frozen.Some? <==> p.frozen.Some?))
            && (path != "/reset" && p.frozen.Some? ==> Drops(p.frozen.value, q.frozen.value, path))
            && q.runs == 0 && q.failures == 0 && !q.counters.overflow && Recounted(q)
            && response == Response(if env.write.ok then 200 else 500, [])
            && (env.write.ok ==> Durable(q)) && (!env.write.ok ==> q.file == env.write.left)
  {
    hide Stores, Pretty, Kept, Fold, Recounted, Drops;
    var q := Reset(p, ScopeOf(path), env.write).0;
    KeptDrops(p.live, path);
    if path == "/reset" {
      NothingKept(p.live);
    } else if p.frozen.Some? {
      KeptDrops(p.frozen.value, path);
    }
    FoldRecounts(q);
    PrettyStores(All(q));
  }

  /** The counters are those of the records at hand. */
  ghost predicate Recounted(q: Protocol) {
    var all := (if q.frozen.Some? then q.frozen.value else []) + q.live;
    && q.counters.records == |all| && q.counters.retained == Sum(Charges(all))
    && q.counters.traceRequests == CountOf(all, Traces) && q.counters.traceSpans == Sum(SpanCounts(all))
    && q.counters.metricRequests == CountOf(all, Metrics) && q.counters.logRequests == CountOf(all, Logs)
  }

  /** Candidates and validations see the snapshot, or the live records before any dump. */
  lemma JudgesSnapshot(p: Protocol, limit: nat, native: bool, path: string, env: Environment)
    ensures var seen := if p.frozen.Some? then p.frozen.value else p.live;
            Serve(p, limit, native, "GET", "/candidate", env) == (p, Response(if env.prints then 200 else 422, seen))
    ensures path in {"/validate", "/validate-bytecode"} ==>
              var seen := if p.frozen.Some? then p.frozen.value else p.live;
              var passed := env.verdict == Passed;
              Serve(p, limit, native, "POST", path, env) ==
                (p.(runs := p.runs + 1, failures := p.failures + if passed then 0 else 1),
                 Response(if passed then 200 else if env.verdict == Faulted then 422 else 409, seen))
  {
  }

  /** Anything else that is no upload is refused and changes nothing. */
  lemma OthersRefused(p: Protocol, limit: nat, native: bool, verb: string, path: string, env: Environment)
    requires verb == "GET" ==>
               path !in {"/info", "/healthz", "/stats", "/dump", "/dump.scm", "/candidate"}
    requires verb == "POST" ==>
               path !in {"/reset", "/reset/traces", "/reset/traces-and-metrics", "/validate", "/validate-bytecode"}
    ensures verb != "POST" && !(native && verb == "PUT") ==>
              Serve(p, limit, native, verb, path, env) == (p, Response(405, []))
    ensures (verb == "POST" || (native && verb == "PUT")) &&
            path !in {"/v0.4/traces", "/v0.5/traces", "/v1/traces", "/v1/metrics", "/v1/logs"} ==>
              Serve(p, limit, native, verb, path, env) == (p, Response(404, []))
  {
  }

  /** A request that was too large to be read raises the flag of a stress capture alone. */
  lemma UnreadableOnlyFlags(s: State, status: nat)
    ensures Step(s, Unreadable(status)).1 == Response(status, [])
    ensures status == 413 && s.limit > 4194304 ==>
              Step(s, Unreadable(status)).0 ==
              s.(datadog := s.datadog.(counters := s.datadog.counters.(overflow := true)))
    ensures status != 413 || s.limit <= 4194304 ==> Step(s, Unreadable(status)).0 == s
  {
  }

  /** A server starts with nothing captured, empty arrays in its files and a limit of four
      megabytes, or of sixty-four for a stress capture. */
  lemma StartsEmpty(stress: bool)
    ensures var s := Initial(stress);
            && s.limit == (if stress then 67108864 else 4194304) && s.datadog == s.otlp
            && s.otlp.live == [] && s.otlp.frozen.None? && s.otlp.runs == 0 && s.otlp.failures == 0
            && s.otlp.counters == Counters(false, 0, 0, 0, 0, 0, 0) && Stores(s.otlp.file, [])
  {
    PrettyStores([]);
  }

  // ---- The file ----

  /** A rewritten file is one array, a record to a line, indented by two. */
  lemma RewrittenText(records: seq<Record>, r: Record)
    ensures Pretty([]) == [Open, Close, Newline]
    ensures records == [] ==> Pretty(records + [r]) == [Open, Blank(2), Item(r), Blank(0), Close, Newline]
    ensures records != [] ==>
              var before := Pretty(records);
              |before| >= 3 &&
              Pretty(records + [r]) == before[..|before| - 3] + [Comma, Blank(2), Item(r), Blank(0), Close, Newline]
  {
    PrettyLast(records, r);
    hide PrettyBody;
    if records != [] {
      var body := PrettyBody(records);
      assert Pretty(records)[..|Pretty(records)| - 3] == [Open] + body;
    } else {
      NoBody();
    }
  }

  lemma NoBody()
    ensures PrettyBody([]) == []
  {
  }

  lemma PrettyLast(records: seq<Record>, r: Record)
    ensures PrettyBody(records + [r]) ==
            PrettyBody(records) + ((if records != [] then [Comma] else []) + [Blank(2), Item(r)])
  {
    assert (records + [r])[..|records|] == records;
  }

  /** An appended record follows a comma where the array was not empty. */
  lemma AppendedText(r: Record, file: seq<Cell>)
    ensures Appended([], r) == [Open, Item(r), Close, Newline]
    ensures Appended([Open, Close, Newline], r) == [Open, Item(r), Close, Newline]
    ensures Closed(file) && Width(file) > 3 ==>
              Appended(file, r) == file[..|file| - 2] + [Comma, Item(r), Close, Newline]
  {
    EmptyArray();
    hide Width;
    assert [Open, Close, Newline][..1] == [Open];
  }

  lemma EmptyArray()
    ensures Width([Open, Close, Newline]) == 3
  {
    var file := [Open, Close, Newline];
    assert file[..2] == [Open, Close] && file[..2][..1] == [Open] && file[..1][..0] == [];
    assert Width([Open]) == 1;
    assert Width([Open, Close]) == 2;
  }
}
