/** The running server: the two captures as objects that every request keeps in order. */
module CaptureServer {
  import opened Wrappers
  import opened CaptureFile
  import opened Capture
  import opened CaptureRuns

  /** One protocol's capture. Its counters are those of its records and its limits hold
      before and after every request. */
  class ProtocolCapture {
    const limit: nat
    var live: seq<Record>
    var frozen: Option<seq<Record>>
    var counters: Counters
    var runs: nat
    var failures: nat
    var file: seq<Cell>

    ghost function Now(): Protocol
      reads this
    {
      Protocol(live, frozen, counters, runs, failures, file)
    }

    ghost predicate Valid()
      reads this
    {
      Accounts(Now(), limit)
    }

    constructor (limit: nat)
      ensures Valid() && this.limit == limit && Now() == FRESH
    {
      EmptyFold();
      this.limit := limit;
      live, frozen, counters, runs, failures, file := [], None, NO_COUNTERS, 0, 0, Pretty([]);
    }

    method FreezeRecords() returns (snapshot: seq<Record>)
      requires Valid()
      modifies this`live, this`frozen
      ensures Valid() && Now() == Freeze(old(Now())) && snapshot == All(old(Now()))
    {
      FreezeKeepsAll(Now());
      if frozen.None? {
        frozen := Some([]);
      }
      frozen := Some(frozen.value + live);
      live := [];
      snapshot := frozen.value;
    }

    method DumpRecords(write: Outcome) returns (response: Response)
      requires Valid()
      modifies this
      ensures Valid() && (Now(), response) == Dump(old(Now()), write)
    {
      hide Pretty;
      var snapshot := FreezeRecords();
      assert snapshot + [] == snapshot;
      file := if write.ok then Pretty(snapshot) else write.left;
      response := if write.ok then Response(200, snapshot) else Response(500, []);
    }

    method Recount()
      modifies this`counters
      ensures counters == Fold(All(Now()))
    {
      var records := (if frozen.Some? then frozen.value else []) + live;
      counters := NO_COUNTERS;
      for i := 0 to |records|
        invariant counters == Fold(records[..i])
      {
        assert records[..i + 1][..i] == records[..i];
        counters := Add(counters, records[i]);
      }
      assert records[..|records|] == records;
    }

    method ResetRecords(scope: Scope, write: Outcome) returns (response: Response)
      requires Valid()
      modifies this
      ensures Valid() && (Now(), response) == Reset(old(Now()), scope, write)
    {
      ResetKeepsAccounts(Now(), limit, scope, write);
      hide Accounts, Fold, Kept, Pretty;
      if scope == Everything {
        NothingKept(live);
        live := [];
        frozen := None;
      } else {
        live := Kept(live, scope);
        if frozen.Some? {
          frozen := Some(Kept(frozen.value, scope));
        }
      }
      runs, failures := 0, 0;
      Recount();
      var records := (if frozen.Some? then frozen.value else []) + live;
      file := if write.ok then Pretty(records) else write.left;
      response := Response(if write.ok then 200 else 500, []);
    }

    method ValidateRecords(verdict: Verdict) returns (response: Response)
      requires Valid()
      modifies this`runs, this`failures
      ensures Valid() && (Now(), response) == Validate(old(Now()), verdict)
    {
      var snapshot := if frozen.Some? then frozen.value else live;
      runs := runs + 1;
      if !verdict.Passed? {
        failures := failures + 1;
      }
      response := Response(if verdict.Passed? then 200 else if verdict.Faulted? then 422 else 409, snapshot);
    }

    /** Appends to the file; it is left alone or torn when the write fails. */
    method AppendToFile(r: Record, write: Outcome) returns (ok: bool)
      modifies this`file
      ensures ok == write.ok && file == FileAfter(old(file), r, write)
    {
      if write.ok && (file == [] || Closed(file)) {
        var output := new OutputFile(file);
        output.AppendRecord(r);
        file := output.cells;
      } else {
        file := write.left;
      }
      ok := write.ok;
    }

    method IngestUpload(isDatadog: bool, signal: Option<Signal>, u: Upload, write: Outcome) returns (response: Response)
      requires Valid()
      modifies this
      ensures Valid() && (Now(), response) == Ingest(old(Now()), limit, isDatadog, signal, u, write)
    {
      IngestKeepsAccounts(Now(), limit, isDatadog, signal, u, write);
      if signal.None? {
        return Response(404, []);
      }
      if u.refusal.Some? {
        return Response(u.refusal.value, []);
      }
      if counters.records >= MAX_CAPTURE_RECORDS || counters.retained + u.body > limit {
        counters := counters.(overflow := true);
        return Response(413, []);
      }
      var budget: nat := limit - counters.retained - u.body;
      var decoding := u.decode(budget);
      if decoding.Refused? {
        if decoding.overBudget {
          counters := counters.(overflow := true);
        }
        return Response(400, []);
      }
      response := AdmitPayload(isDatadog, signal.value, u, decoding.payload, write);
    }

    method AdmitPayload(isDatadog: bool, signal: Signal, u: Upload, d: Payload, write: Outcome)
      returns (response: Response)
      modifies this
      ensures (Now(), response) == Admit(old(Now()), limit, isDatadog, signal, u, d, write)
    {
      hide RetainedBytes, FileAfter, Add;
      if d.size.None? {
        return Response(400, []);
      }
      if d.size.value > DecodedLimit(isDatadog, limit) {
        counters := counters.(overflow := true);
        return Response(413, []);
      }
      var charge := RetainedBytes(d.size.value, d.extra, u.body, u.headers, u.others);
      if charge.None? {
        return Response(413, []);
      }
      if counters.retained + charge.value > limit {
        counters := counters.(overflow := true);
        return Response(413, []);
      }
      var record := Record(signal, d.spans, charge.value, d.content);
      live := live + [record];
      var ok := AppendToFile(record, write);
      if !ok {
        live := live[..|live| - 1];
        return Response(500, []);
      }
      counters := Add(counters, record);
      response := Response(200, []);
    }

    method ServeRequest(isDatadog: bool, verb: string, path: string, env: Environment) returns (response: Response)
      requires Valid()
      modifies this
      ensures Valid() && (Now(), response) == Serve(old(Now()), limit, isDatadog, verb, path, env)
    {
      hide Dump, Reset, Validate, Ingest, Accounts;
      if verb == "GET" && (path == "/info" || path == "/healthz") {
        return Response(200, []);
      }
      if verb == "GET" && path == "/dump" {
        response := DumpRecords(env.write);
        return;
      }
      if verb == "GET" && path == "/dump.scm" {
        var snapshot := FreezeRecords();
        return if env.prints then Response(200, snapshot) else Response(500, []);
      }
      if verb == "GET" && path == "/stats" {
        return Response(200, []);
      }
      if verb == "POST" && IsReset(path) {
        response := ResetRecords(ScopeOf(path), env.write);
        return;
      }
      if verb == "GET" && path == "/candidate" {
        var snapshot := if frozen.Some? then frozen.value else live;
        return Response(if env.prints then 200 else 422, snapshot);
      }
      if verb == "POST" && (path == "/validate" || path == "/validate-bytecode") {
        response := ValidateRecords(env.verdict);
        return;
      }
      if verb != "POST" && !(isDatadog && verb == "PUT") {
        return Response(405, []);
      }
      response := IngestUpload(isDatadog, SignalOf(path), env.upload, env.write);
    }
  }

  class Server {
    const limit: nat
    const otlp: ProtocolCapture
    const datadog: ProtocolCapture

    ghost predicate Valid()
      reads otlp, datadog
    {
      otlp != datadog && otlp.limit == datadog.limit == limit && otlp.Valid() && datadog.Valid()
    }

    ghost function Now(): State
      reads otlp, datadog
    {
      State(limit, otlp.Now(), datadog.Now())
    }

    constructor (stress: bool)
      ensures Valid() && fresh(otlp) && fresh(datadog) && Now() == Initial(stress)
    {
      limit := if stress then STRESS_CAPTURE_LIMIT else CAPTURE_LIMIT;
      var first := new ProtocolCapture(if stress then STRESS_CAPTURE_LIMIT else CAPTURE_LIMIT);
      var second := new ProtocolCapture(if stress then STRESS_CAPTURE_LIMIT else CAPTURE_LIMIT);
      otlp, datadog := first, second;
    }

    method HandleConnection(input: Input) returns (response: Response)
      requires Valid()
      modifies otlp, datadog
      ensures Valid() && (Now(), response) == Step(old(Now()), input)
    {
      hide Serve;
      match input
      case Unreadable(status) =>
        if status == 413 && limit > CAPTURE_LIMIT {
          datadog.counters := datadog.counters.(overflow := true);
        }
        response := Response(status, []);
      case Request(verb, path, protocol, env) =>
        var target := TargetOf(path, protocol);
        if target.Neither? {
          return Response(400, []);
        }
        if target.Datadog? {
          response := datadog.ServeRequest(true, verb, path, env);
        } else {
          response := otlp.ServeRequest(false, verb, path, env);
        }
    }
  }
}
