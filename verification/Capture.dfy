/** The capture server: two protocols, each with live records, a frozen snapshot, running
    counters and a file, changed by one request at a time. */
module Capture {
  import opened Wrappers
  import opened CaptureFile

  const USIZE_RANGE: nat := 0x1_0000_0000_0000_0000
  const CAPTURE_LIMIT: nat := 4 * 1024 * 1024
  const STRESS_CAPTURE_LIMIT: nat := 64 * 1024 * 1024
  const MAX_CAPTURE_RECORDS: nat := 4096
  const MAX_DECODED_BYTES: nat := 1024 * 1024
  const MAX_STRESS_DECODED_BYTES: nat := 8 * 1024 * 1024

  // ---- Counters ----

  datatype Counters = Counters(overflow: bool, records: nat, retained: nat,
                               traceRequests: nat, traceSpans: nat, metricRequests: nat, logRequests: nat)

  const NO_COUNTERS := Counters(false, 0, 0, 0, 0, 0, 0)

  function Add(c: Counters, r: Record): Counters {
    var counted := c.(records := c.records + 1, retained := c.retained + r.retained);
    match r.signal
    case Traces => counted.(traceRequests := c.traceRequests + 1, traceSpans := c.traceSpans + r.spans)
    case Metrics => counted.(metricRequests := c.metricRequests + 1)
    case Logs => counted.(logRequests := c.logRequests + 1)
  }

  /** The counters that the records give from scratch. */
  function Fold(records: seq<Record>): Counters {
    if records == [] then NO_COUNTERS else Add(Fold(records[..|records| - 1]), records[|records| - 1])
  }

  // ---- Charges ----

  function CheckedAdd(a: nat, b: nat): Option<nat> {
    if a + b < USIZE_RANGE then Some(a + b) else None
  }

  function CheckedSum(parts: seq<nat>): Option<nat> {
    if parts == [] then Some(0)
    else
      var before := CheckedSum(parts[..|parts| - 1]);
      if before.None? then None else CheckedAdd(before.value, parts[|parts| - 1])
  }

  function Sum(parts: seq<nat>): nat {
    if parts == [] then 0 else Sum(parts[..|parts| - 1]) + parts[|parts| - 1]
  }

  lemma {:induction false} CheckedSumIsSum(parts: seq<nat>)
    ensures CheckedSum(parts) == if Sum(parts) < USIZE_RANGE then Some(Sum(parts)) else None
  {
    if parts != [] {
      CheckedSumIsSum(parts[..|parts| - 1]);
    }
  }

  /** What a record costs: twice its payload, its backing allocations, its body and all
      of its strings. */
  function RetainedBytes(decodedSize: nat, extra: nat, body: nat, headers: seq<nat>, others: seq<nat>): Option<nat> {
    if 2 * decodedSize >= USIZE_RANGE then None
    else
      var headerBytes := CheckedSum(headers);
      if headerBytes.None? then None
      else CheckedSum([2 * decodedSize, extra, body, headerBytes.value] + others)
  }

  lemma {:induction false} SumOfParts(a: seq<nat>, b: seq<nat>)
    ensures Sum(a + b) == Sum(a) + Sum(b)
  {
    if b == [] {
      assert a + b == a;
    } else {
      SumOfParts(a, b[..|b| - 1]);
      assert (a + b)[..|a + b| - 1] == a + b[..|b| - 1];
    }
  }

  lemma SumOfFour(a: nat, b: nat, c: nat, d: nat)
    ensures Sum([a, b, c, d]) == a + b + c + d
  {
    assert [a, b, c, d][..3] == [a, b, c] && [a, b, c][..2] == [a, b] && [a, b][..1] == [a] && [a][..0] == [];
    assert Sum([a]) == a;
    assert Sum([a, b]) == a + b;
    assert Sum([a, b, c]) == a + b + c;
  }

  /** The charge is the exact total, refused only when it does not fit the machine word. */
  lemma RetainedBytesExact(decodedSize: nat, extra: nat, body: nat, headers: seq<nat>, others: seq<nat>)
    ensures var total := 2 * decodedSize + extra + body + Sum(headers) + Sum(others);
            RetainedBytes(decodedSize, extra, body, headers, others) ==
              if total < USIZE_RANGE then Some(total) else None
  {
    CheckedSumIsSum(headers);
    if 2 * decodedSize < USIZE_RANGE && Sum(headers) < USIZE_RANGE {
      var parts := [2 * decodedSize, extra, body, Sum(headers)];
      CheckedSumIsSum(parts + others);
      SumOfParts(parts, others);
      SumOfFour(2 * decodedSize, extra, body, Sum(headers));
    }
  }

  // ---- What the outside world answers ----

  // A write succeeds, or fails and leaves something on disk.
  datatype Outcome = Outcome(ok: bool, left: seq<Cell>)

  // `size` is the serialized size of the payload, when it can be serialized.
  datatype Payload = Payload(size: Option<nat>, extra: nat, spans: nat, content: seq<nat>)

  datatype Decoding = Refused(overBudget: bool) | Accepted(payload: Payload)

  // A content type or encoding that is not accepted.
  type Refusal = status: nat | status == 400 || status == 415 witness 400

  datatype Upload = Upload(refusal: Option<Refusal>, body: nat, decode: nat -> Decoding, headers: seq<nat>,
    others: seq<nat>)

  datatype Verdict = Passed | ContractFailed | Faulted | NotPrintable

  datatype Environment = Environment(write: Outcome, prints: bool, verdict: Verdict, upload: Upload)

  datatype Input =
    | Unreadable(status: nat)
    | Request(verb: string, path: string, protocol: Option<string>, env: Environment)

  // The status sent, and the records that were sent or judged.
  datatype Response = Response(status: nat, seen: seq<Record>)

  // ---- One protocol ----

  datatype Protocol = Protocol(live: seq<Record>, frozen: Option<seq<Record>>, counters: Counters,
                               runs: nat, failures: nat, file: seq<Cell>)

  const FRESH := Protocol([], None, NO_COUNTERS, 0, 0, Pretty([]))

  function FrozenRecords(p: Protocol): seq<Record> {
    if p.frozen.Some? then p.frozen.value else []
  }

  /** All captured records, in the order of their capture. */
  function All(p: Protocol): seq<Record> {
    FrozenRecords(p) + p.live
  }

  /** The records that candidate and validate work on. */
  function Snapshot(p: Protocol): seq<Record> {
    if p.frozen.Some? then p.frozen.value else p.live
  }

  function Freeze(p: Protocol): Protocol {
    p.(frozen := Some(All(p)), live := [])
  }

  function Dump(p: Protocol, write: Outcome): (Protocol, Response) {
    var q := Freeze(p);
    (q.(file := if write.ok then Pretty(All(q)) else write.left),
     if write.ok then Response(200, All(q)) else Response(500, []))
  }

  function DumpScheme(p: Protocol, prints: bool): (Protocol, Response) {
    (Freeze(p), if prints then Response(200, All(p)) else Response(500, []))
  }

  datatype Scope = Everything | TracesOnly | TracesAndMetrics

  predicate Keeps(scope: Scope, s: Signal) {
    match scope
    case Everything => false
    case TracesOnly => s != Traces
    case TracesAndMetrics => s == Logs
  }

  function Kept(records: seq<Record>, scope: Scope): seq<Record> {
    if records == [] then []
    else
      var before, last := Kept(records[..|records| - 1], scope), records[|records| - 1];
      if Keeps(scope, last.signal) then before + [last] else before
  }

  function Reset(p: Protocol, scope: Scope, write: Outcome): (Protocol, Response) {
    var frozen := if scope == Everything || p.frozen.None? then None else Some(Kept(p.frozen.value, scope));
    var live := Kept(p.live, scope);
    var all := (if frozen.Some? then frozen.value else []) + live;
    (Protocol(live, frozen, Fold(all), 0, 0, if write.ok then Pretty(all) else write.left),
     Response(if write.ok then 200 else 500, []))
  }

  function Candidate(p: Protocol, prints: bool): Response {
    Response(if prints then 200 else 422, Snapshot(p))
  }

  function Validate(p: Protocol, verdict: Verdict): (Protocol, Response) {
    (p.(runs := p.runs + 1, failures := if verdict.Passed? then p.failures else p.failures + 1),
     Response(if verdict.Passed? then 200 else if verdict.Faulted? then 422 else 409, Snapshot(p)))
  }

  function Overflowed(p: Protocol): Protocol {
    p.(counters := p.counters.(overflow := true))
  }

  function DecodedLimit(isDatadog: bool, limit: nat): nat {
    if isDatadog && limit > CAPTURE_LIMIT then MAX_STRESS_DECODED_BYTES else MAX_DECODED_BYTES
  }

  /** The file after an append: what the write left behind where it failed or where the
      file was not a whole array before. */
  function FileAfter(file: seq<Cell>, r: Record, write: Outcome): seq<Cell> {
    if write.ok && (file == [] || Closed(file)) then Appended(file, r) else write.left
  }

  function Store(p: Protocol, r: Record, write: Outcome): (Protocol, Response) {
    if write.ok then
      (p.(live := p.live + [r], counters := Add(p.counters, r), file := FileAfter(p.file, r, write)), Response(200, []))
    else (p.(file := FileAfter(p.file, r, write)), Response(500, []))
  }

  function Admit(p: Protocol, limit: nat, isDatadog: bool, signal: Signal, u: Upload, d: Payload,
                 write: Outcome): (Protocol, Response) {
    if d.size.None? then (p, Response(400, []))
    else if d.size.value > DecodedLimit(isDatadog, limit) then (Overflowed(p), Response(413, []))
    else
      var charge := RetainedBytes(d.size.value, d.extra, u.body, u.headers, u.others);
      if charge.None? then (p, Response(413, []))
      else if p.counters.retained + charge.value > limit then (Overflowed(p), Response(413, []))
      else Store(p, Record(signal, d.spans, charge.value, d.content), write)
  }

  predicate Full(p: Protocol, limit: nat, body: nat) {
    p.counters.records >= MAX_CAPTURE_RECORDS || p.counters.retained + body > limit
  }

  function Ingest(p: Protocol, limit: nat, isDatadog: bool, signal: Option<Signal>, u: Upload,
                  write: Outcome): (Protocol, Response) {
    if signal.None? then (p, Response(404, []))
    else if u.refusal.Some? then (p, Response(u.refusal.value, []))
    else if Full(p, limit, u.body) then (Overflowed(p), Response(413, []))
    else
      match u.decode(limit - p.counters.retained - u.body)
      case Refused(overBudget) => (if overBudget then Overflowed(p) else p, Response(400, []))
      case Accepted(d) => Admit(p, limit, isDatadog, signal.value, u, d, write)
  }

  // ---- Routing ----

  predicate DatadogIntake(path: string) {
    path == "/v0.4/traces" || path == "/v0.5/traces"
  }

  predicate OtlpIntake(path: string) {
    path == "/v1/traces" || path == "/v1/metrics" || path == "/v1/logs"
  }

  function SignalOf(path: string): Option<Signal> {
    if path == "/v1/traces" || DatadogIntake(path) then Some(Traces)
    else if path == "/v1/metrics" then Some(Metrics)
    else if path == "/v1/logs" then Some(Logs)
    else None
  }

  datatype Target = Otlp | Datadog | Neither

  /** The protocol whose capture a request works on. */
  function TargetOf(path: string, protocol: Option<string>): Target {
    var named := if protocol.Some? then protocol.value else "otlp";
    if named != "otlp" && named != "datadog" then Neither
    else if protocol.Some? && ((DatadogIntake(path) && named != "datadog") || (OtlpIntake(path) && named != "otlp"))
         then Neither
    else if DatadogIntake(path) || (!OtlpIntake(path) && named == "datadog") then Datadog
    else Otlp
  }

  function ScopeOf(path: string): Scope {
    if path == "/reset" then Everything else if path == "/reset/traces" then TracesOnly else TracesAndMetrics
  }

  predicate IsReset(path: string) {
    path == "/reset" || path == "/reset/traces" || path == "/reset/traces-and-metrics"
  }

  /** One request to one protocol. */
  function Serve(p: Protocol, limit: nat, isDatadog: bool, verb: string, path: string,
                 env: Environment): (Protocol, Response) {
    if verb == "GET" && (path == "/info" || path == "/healthz") then (p, Response(200, []))
    else if verb == "GET" && path == "/dump" then Dump(p, env.write)
    else if verb == "GET" && path == "/dump.scm" then DumpScheme(p, env.prints)
    else if verb == "GET" && path == "/stats" then (p, Response(200, []))
    else if verb == "POST" && IsReset(path) then Reset(p, ScopeOf(path), env.write)
    else if verb == "GET" && path == "/candidate" then (p, Candidate(p, env.prints))
    else if verb == "POST" && (path == "/validate" || path == "/validate-bytecode") then Validate(p, env.verdict)
    else if verb != "POST" && !(isDatadog && verb == "PUT") then (p, Response(405, []))
    else Ingest(p, limit, isDatadog, SignalOf(path), env.upload, env.write)
  }

  // ---- Both protocols ----

  datatype State = State(limit: nat, otlp: Protocol, datadog: Protocol)

  /** One connection, handled to its end. */
  function Step(s: State, input: Input): (State, Response) {
    match input
    case Unreadable(status) =>
      (if status == 413 && s.limit > CAPTURE_LIMIT then s.(datadog := Overflowed(s.datadog)) else s,
       Response(status, []))
    case Request(verb, path, protocol, env) =>
      match TargetOf(path, protocol)
      case Neither => (s, Response(400, []))
      case Otlp =>
        var (p, response) := Serve(s.otlp, s.limit, false, verb, path, env);
        (s.(otlp := p), response)
      case Datadog =>
        var (p, response) := Serve(s.datadog, s.limit, true, verb, path, env);
        (s.(datadog := p), response)
  }

  function Initial(stress: bool): State {
    State(if stress then STRESS_CAPTURE_LIMIT else CAPTURE_LIMIT, FRESH, FRESH)
  }

  lemma {:induction false} NothingKept(records: seq<Record>)
    ensures Kept(records, Everything) == []
  {
    if records != [] {
      NothingKept(records[..|records| - 1]);
    }
  }
}
