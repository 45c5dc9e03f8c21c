/** What every run of the capture server keeps. */
module CaptureRuns {
  import opened Wrappers
  import opened CaptureFile
  import opened Capture

  // ---- One protocol ----

  /** The counters are exactly those of the captured records, and within the limits. */
  ghost predicate Accounts(p: Protocol, limit: nat) {
    && p.counters.(overflow := false) == Fold(All(p))
    && p.counters.records <= MAX_CAPTURE_RECORDS
    && p.counters.retained <= limit
  }

  /** The file reads back as the captured records. */
  ghost predicate Durable(p: Protocol) {
    Stores(p.file, All(p))
  }

  lemma {:induction false} FoldFacts(records: seq<Record>)
    ensures Fold(records).records == |records| && !Fold(records).overflow
  {
    if records != [] {
      FoldFacts(records[..|records| - 1]);
    }
  }

  /** How many of the records carry the signal. */
  function CountOf(records: seq<Record>, s: Signal): nat {
    if records == [] then 0
    else CountOf(records[..|records| - 1], s) + if records[|records| - 1].signal == s then 1 else 0
  }

  function Charges(records: seq<Record>): seq<nat> {
    seq(|records|, i requires 0 <= i < |records| => records[i].retained)
  }

  // Only trace records bring spans.
  function SpanCounts(records: seq<Record>): seq<nat> {
    seq(|records|, i requires 0 <= i < |records| => if records[i].signal == Traces then records[i].spans else 0)
  }

  /** What each counter of the fold counts. */
  lemma {:induction false} FoldMeaning(records: seq<Record>)
    ensures var c := Fold(records);
            && c.records == |records| && c.retained == Sum(Charges(records))
            && c.traceRequests == CountOf(records, Traces) && c.metricRequests == CountOf(records, Metrics)
            && c.logRequests == CountOf(records, Logs) && c.traceSpans == Sum(SpanCounts(records))
  {
    if records != [] {
      var n := |records| - 1;
      FoldMeaning(records[..n]);
      assert Charges(records)[..n] == Charges(records[..n]);
      assert SpanCounts(records)[..n] == SpanCounts(records[..n]);
    }
  }

  /** A reset keeps exactly the records of the signals it does not name. */
  lemma {:induction false} KeptExactly(records: seq<Record>, scope: Scope, r: Record)
    ensures multiset(Kept(records, scope))[r] == if Keeps(scope, r.signal) then multiset(records)[r] else 0
  {
    if records != [] {
      var n := |records| - 1;
      KeptExactly(records[..n], scope, r);
      assert records == records[..n] + [records[n]];
    }
  }

  lemma FoldAppend(records: seq<Record>, r: Record)
    ensures Fold(records + [r]) == Add(Fold(records), r)
  {
    hide Add;
    assert (records + [r])[..|records|] == records;
  }

  ghost predicate NoMore(a: Counters, b: Counters) {
    a.records <= b.records && a.retained <= b.retained
  }

  lemma {:induction false} KeptConcat(a: seq<Record>, b: seq<Record>, scope: Scope)
    ensures Kept(a + b, scope) == Kept(a, scope) + Kept(b, scope)
  {
    if b == [] {
      assert a + b == a;
    } else {
      KeptConcat(a, b[..|b| - 1], scope);
      assert (a + b)[..|a + b| - 1] == a + b[..|b| - 1];
    }
  }

  lemma AddNoMore(a: Counters, b: Counters, r: Record)
    requires NoMore(a, b)
    ensures NoMore(Add(a, r), Add(b, r)) && NoMore(a, Add(b, r))
  {
  }

  /** What is kept after a reset counts no more than before. */
  lemma {:induction false} KeptNoMore(records: seq<Record>, scope: Scope)
    ensures NoMore(Fold(Kept(records, scope)), Fold(records))
  {
    if records != [] {
      var n := |records| - 1;
      hide Add, Fold, NoMore;
      KeptNoMore(records[..n], scope);
      assert records == records[..n] + [records[n]];
      FoldAppend(records[..n], records[n]);
      FoldAppend(Kept(records[..n], scope), records[n]);
      AddNoMore(Fold(Kept(records[..n], scope)), Fold(records[..n]), records[n]);
    }
  }

  /** Freezing changes neither the captured records nor their order. */
  lemma FreezeKeepsAll(p: Protocol)
    ensures All(Freeze(p)) == All(p)
  {
  }

  lemma ResetKeepsAccounts(p: Protocol, limit: nat, scope: Scope, write: Outcome)
    requires Accounts(p, limit)
    ensures Accounts(Reset(p, scope, write).0, limit)
    ensures write.ok ==> Durable(Reset(p, scope, write).0)
  {
    hide Fold, Stores;
    var q := Reset(p, scope, write).0;
    if scope == Everything {
      NothingKept(p.live);
      assert All(q) == [] + Kept(p.live, scope);
      EmptyFold();
    } else {
      var frozen := FrozenRecords(p);
      NoneKept(scope);
      assert All(q) == Kept(frozen, scope) + Kept(p.live, scope);
      KeptConcat(frozen, p.live, scope);
      KeptNoMore(All(p), scope);
    }
    FoldFacts(All(q));
    PrettyStores(All(q));
  }

  lemma NoneKept(scope: Scope)
    ensures Kept([], scope) == []
  {
  }

  lemma EmptyFold()
    ensures Fold([]) == NO_COUNTERS
  {
  }

  lemma StoreKeepsAccounts(p: Protocol, limit: nat, r: Record, write: Outcome)
    requires Accounts(p, limit) && p.counters.records < MAX_CAPTURE_RECORDS && p.counters.retained + r.retained <= limit
    ensures Accounts(Store(p, r, write).0, limit)
    ensures write.ok && Durable(p) ==> Durable(Store(p, r, write).0)
  {
    hide Fold, Stores, Appended, Decode;
    var q := Store(p, r, write).0;
    if write.ok {
      assert All(q) == All(p) + [r];
      FoldAppend(All(p), r);
      if Durable(p) {
        StoresIsClosed(p.file, All(p));
        AppendStores(p.file, All(p), r);
      }
    }
  }

  lemma StoresIsClosed(file: seq<Cell>, records: seq<Record>)
    requires Stores(file, records)
    ensures Closed(file)
  {
  }

  lemma IngestKeepsAccounts(p: Protocol, limit: nat, isDatadog: bool, signal: Option<Signal>, u: Upload, write: Outcome)
    requires Accounts(p, limit)
    ensures Accounts(Ingest(p, limit, isDatadog, signal, u, write).0, limit)
    ensures write.ok && Durable(p) ==> Durable(Ingest(p, limit, isDatadog, signal, u, write).0)
  {
    hide Stores, Fold, RetainedBytes, Store;
    if signal.Some? && u.refusal.None? && !Full(p, limit, u.body) {
      var decoding := u.decode(limit - p.counters.retained - u.body);
      if decoding.Accepted? && decoding.payload.size.Some? {
        var d := decoding.payload;
        var charge := RetainedBytes(d.size.value, d.extra, u.body, u.headers, u.others);
        if charge.Some? && p.counters.retained + charge.value <= limit {
          StoreKeepsAccounts(p, limit, Record(signal.value, d.spans, charge.value, d.content), write);
        }
      }
    }
  }

  /** Every request keeps the accounts, and with a successful write also the file. */
  lemma ServeKeepsAccounts(p: Protocol, limit: nat, isDatadog: bool, verb: string, path: string, env: Environment)
    requires Accounts(p, limit)
    ensures Accounts(Serve(p, limit, isDatadog, verb, path, env).0, limit)
    ensures env.write.ok && Durable(p) ==> Durable(Serve(p, limit, isDatadog, verb, path, env).0)
  {
    hide Stores, Fold, Ingest, Reset, Pretty;
    FreezeKeepsAll(p);
    PrettyStores(All(p));
    ResetKeepsAccounts(p, limit, ScopeOf(path), env.write);
    IngestKeepsAccounts(p, limit, isDatadog, SignalOf(path), env.upload, env.write);
  }

  /** A dump or a reset that reaches the disk repairs the file, whatever was on it. */
  lemma RewriteRepairs(p: Protocol, limit: nat, scope: Scope, write: Outcome)
    requires Accounts(p, limit) && write.ok
    ensures Durable(Dump(p, write).0) && All(Dump(p, write).0) == All(p)
    ensures Durable(Reset(p, scope, write).0)
  {
    hide Stores, Fold, Pretty;
    FreezeKeepsAll(p);
    PrettyStores(All(p));
    ResetKeepsAccounts(p, limit, scope, write);
  }

  // ---- Acceptance ----

  /** An upload is answered with 200 exactly when it became the last live record; otherwise
      no record and no counter but the overflow flag changes. */
  lemma AcceptedIffStored(p: Protocol, limit: nat, isDatadog: bool, signal: Option<Signal>, u: Upload, write: Outcome)
    ensures var (q, response) := Ingest(p, limit, isDatadog, signal, u, write);
            && q.frozen == p.frozen
            && (response.status == 200 ==> |q.live| == |p.live| + 1 && q.live[..|p.live|] == p.live &&
                                           q.counters == Add(p.counters, q.live[|p.live|]))
            && (response.status != 200 ==>
               q.live == p.live && q.counters.(overflow := false) == p.counters.(overflow := false))
  {
    hide RetainedBytes, FileAfter, Add;
  }

  // ---- The snapshot ----

  predicate TakesSnapshot(verb: string, path: string) {
    verb == "GET" && (path == "/dump" || path == "/dump.scm")
  }

  predicate DropsRecords(verb: string, path: string) {
    verb == "POST" && IsReset(path)
  }

  predicate ReadsSnapshot(verb: string, path: string) {
    (verb == "GET" && path == "/candidate") || (verb == "POST" && (path == "/validate" || path == "/validate-bytecode"))
  }

  /** Between a dump and a reset the snapshot stays, and every reader sees it. */
  lemma ServeKeepsSnapshot(p: Protocol, limit: nat, isDatadog: bool, verb: string, path: string, env: Environment)
    requires p.frozen.Some? && !TakesSnapshot(verb, path) && !DropsRecords(verb, path)
    ensures var (q, response) := Serve(p, limit, isDatadog, verb, path, env);
            && q.frozen == p.frozen
            && (ReadsSnapshot(verb, path) ==> response.seen == p.frozen.value)
  {
    hide Fold, RetainedBytes, FileAfter, Add;
  }

  // ---- Whole runs ----

  function Run(s: State, inputs: seq<Input>): State {
    if inputs == [] then s else Step(Run(s, inputs[..|inputs| - 1]), inputs[|inputs| - 1]).0
  }

  ghost predicate Invariant(s: State) {
    Accounts(s.otlp, s.limit) && Accounts(s.datadog, s.limit)
  }

  predicate Written(input: Input) {
    input.Request? ==> input.env.write.ok
  }

  lemma InitialInvariant(stress: bool)
    ensures Invariant(Initial(stress)) && Durable(FRESH)
  {
    EmptyFold();
    PrettyStores([]);
  }

  lemma StepInvariant(s: State, input: Input)
    requires Invariant(s)
    ensures Invariant(Step(s, input).0)
    ensures Written(input) && Durable(s.otlp) && Durable(s.datadog) ==>
              Durable(Step(s, input).0.otlp) && Durable(Step(s, input).0.datadog)
  {
    hide Serve, Fold, Stores;
    match input
    case Unreadable(status) =>
    case Request(verb, path, protocol, env) =>
      ServeKeepsAccounts(s.otlp, s.limit, false, verb, path, env);
      ServeKeepsAccounts(s.datadog, s.limit, true, verb, path, env);
  }

  /** After any requests whatsoever the counters are those of the records and the limits
      hold; if every write succeeded the two files read back as the two captures. */
  lemma {:induction false} RunInvariant(stress: bool, inputs: seq<Input>)
    ensures var s := Run(Initial(stress), inputs);
            && Invariant(s)
            && s.limit == Initial(stress).limit
            && ((forall i :: 0 <= i < |inputs| ==> Written(inputs[i])) ==> Durable(s.otlp) && Durable(s.datadog))
  {
    hide Invariant, Durable, Step, Written;
    if inputs == [] {
      InitialInvariant(stress);
    } else {
      var n := |inputs| - 1;
      RunInvariant(stress, inputs[..n]);
      StepInvariant(Run(Initial(stress), inputs[..n]), inputs[n]);
      StepKeepsLimit(Run(Initial(stress), inputs[..n]), inputs[n]);
    }
  }

  lemma StepKeepsLimit(s: State, input: Input)
    ensures Step(s, input).0.limit == s.limit
  {
    hide Serve;
  }

  /** No run ever holds more records or bytes than allowed. */
  lemma CaptureBounded(stress: bool, inputs: seq<Input>)
    ensures var s := Run(Initial(stress), inputs);
            && |All(s.otlp)| <= MAX_CAPTURE_RECORDS && |All(s.datadog)| <= MAX_CAPTURE_RECORDS
            && Fold(All(s.otlp)).retained <= s.limit && Fold(All(s.datadog)).retained <= s.limit
  {
    hide Fold, Run;
    var s := Run(Initial(stress), inputs);
    RunInvariant(stress, inputs);
    FoldFacts(All(s.otlp));
    FoldFacts(All(s.datadog));
  }

  // ---- The two protocols do not see each other ----

  predicate Concerns(input: Input, target: Target) {
    input.Request? && TargetOf(input.path, input.protocol) == target
  }

  function Only(inputs: seq<Input>, target: Target): seq<Input> {
    if inputs == [] then []
    else
      var before, last := Only(inputs[..|inputs| - 1], target), inputs[|inputs| - 1];
      if Concerns(last, target) then before + [last] else before
  }

  lemma StepIsolates(s: State, t: State, input: Input)
    requires s.limit == t.limit
    ensures s.otlp == t.otlp ==> Step(s, input).0.otlp == Step(t, input).0.otlp
    ensures !Concerns(input, Otlp) ==> Step(s, input).0.otlp == s.otlp
  {
    hide Serve;
  }

  /** The OTLP capture of a run is that of the run's OTLP requests alone. */
  lemma {:induction false} OtlpSeesOnlyItsOwn(s: State, inputs: seq<Input>)
    ensures Run(s, inputs).otlp == Run(s, Only(inputs, Otlp)).otlp
    ensures Run(s, inputs).limit == s.limit && Run(s, Only(inputs, Otlp)).limit == s.limit
  {
    hide Step;
    if inputs != [] {
      var n := |inputs| - 1;
      var before := Only(inputs[..n], Otlp);
      OtlpSeesOnlyItsOwn(s, inputs[..n]);
      StepIsolates(Run(s, inputs[..n]), Run(s, before), inputs[n]);
      StepKeepsLimit(Run(s, inputs[..n]), inputs[n]);
      StepKeepsLimit(Run(s, before), inputs[n]);
      assert (before + [inputs[n]])[..|before|] == before;
    }
  }

  /** A protocol but for its overflow flag. */
  function Quiet(p: Protocol): Protocol {
    p.(counters := p.counters.(overflow := false))
  }

  lemma QuietStore(p: Protocol, q: Protocol, r: Record, write: Outcome)
    requires Quiet(p) == Quiet(q)
    ensures Quiet(Store(p, r, write).0) == Quiet(Store(q, r, write).0)
  {
    hide FileAfter;
  }

  lemma QuietIngest(p: Protocol, q: Protocol, limit: nat, isDatadog: bool, signal: Option<Signal>, u: Upload,
                    write: Outcome)
    requires Quiet(p) == Quiet(q)
    ensures Quiet(Ingest(p, limit, isDatadog, signal, u, write).0) ==
            Quiet(Ingest(q, limit, isDatadog, signal, u, write).0)
  {
    hide RetainedBytes, Store;
    assert p.counters.records == q.counters.records && p.counters.retained == q.counters.retained;
    if signal.Some? && u.refusal.None? && !Full(p, limit, u.body) {
      var decoding := u.decode(limit - p.counters.retained - u.body);
      if decoding.Accepted? && decoding.payload.size.Some? {
        var d := decoding.payload;
        var charge := RetainedBytes(d.size.value, d.extra, u.body, u.headers, u.others);
        if charge.Some? {
          QuietStore(p, q, Record(signal.value, d.spans, charge.value, d.content), write);
        }
      }
    }
  }

  /** No request takes the overflow flag into account. */
  lemma QuietServe(p: Protocol, q: Protocol, limit: nat, isDatadog: bool, verb: string, path: string, env: Environment)
    requires Quiet(p) == Quiet(q)
    ensures Quiet(Serve(p, limit, isDatadog, verb, path, env).0) == Quiet(Serve(q, limit, isDatadog, verb, path, env).0)
  {
    hide Ingest, Dump, DumpScheme, Reset, Validate, Quiet;
    QuietIngest(p, q, limit, isDatadog, SignalOf(path), env.upload, env.write);
    QuietDump(p, q, env);
    QuietReset(p, q, ScopeOf(path), env);
  }

  lemma QuietDump(p: Protocol, q: Protocol, env: Environment)
    requires Quiet(p) == Quiet(q)
    ensures Quiet(Dump(p, env.write).0) == Quiet(Dump(q, env.write).0)
    ensures Quiet(DumpScheme(p, env.prints).0) == Quiet(DumpScheme(q, env.prints).0)
  {
    hide Pretty;
  }

  lemma QuietReset(p: Protocol, q: Protocol, scope: Scope, env: Environment)
    requires Quiet(p) == Quiet(q)
    ensures Quiet(Reset(p, scope, env.write).0) == Quiet(Reset(q, scope, env.write).0)
    ensures Quiet(Validate(p, env.verdict).0) == Quiet(Validate(q, env.verdict).0)
  {
    hide Pretty, Fold, Kept;
  }

  lemma QuietStep(s: State, t: State, input: Input)
    requires s.limit == t.limit && Quiet(s.datadog) == Quiet(t.datadog)
    ensures Quiet(Step(s, input).0.datadog) == Quiet(Step(t, input).0.datadog)
    ensures !Concerns(input, Datadog) ==> Quiet(Step(s, input).0.datadog) == Quiet(s.datadog)
  {
    hide Serve;
    if Concerns(input, Datadog) {
      QuietServe(s.datadog, t.datadog, s.limit, true, input.verb, input.path, input.env);
    }
  }

  /** The Datadog capture of a run is that of the run's Datadog requests alone, up to the
      overflow flag that an oversized request sets. */
  lemma {:induction false} DatadogSeesOnlyItsOwn(s: State, inputs: seq<Input>)
    ensures Quiet(Run(s, inputs).datadog) == Quiet(Run(s, Only(inputs, Datadog)).datadog)
    ensures Run(s, inputs).limit == s.limit && Run(s, Only(inputs, Datadog)).limit == s.limit
  {
    hide Step, Quiet;
    if inputs != [] {
      var n := |inputs| - 1;
      var before := Only(inputs[..n], Datadog);
      DatadogSeesOnlyItsOwn(s, inputs[..n]);
      QuietStep(Run(s, inputs[..n]), Run(s, before), inputs[n]);
      StepKeepsLimit(Run(s, inputs[..n]), inputs[n]);
      StepKeepsLimit(Run(s, before), inputs[n]);
      assert (before + [inputs[n]])[..|before|] == before;
    }
  }

  // ---- A snapshot over a run ----

  predicate LeavesSnapshot(input: Input, target: Target) {
    Concerns(input, target) ==> !TakesSnapshot(input.verb, input.path) && !DropsRecords(input.verb, input.path)
  }

  function Of(s: State, target: Target): Protocol {
    if target.Datadog? then s.datadog else s.otlp
  }

  lemma StepKeepsSnapshot(s: State, input: Input, target: Target)
    requires !target.Neither? && Of(s, target).frozen.Some? && LeavesSnapshot(input, target)
    ensures Of(Step(s, input).0, target).frozen == Of(s, target).frozen
    ensures Concerns(input, target) && ReadsSnapshot(input.verb, input.path) ==>
              Step(s, input).1.seen == Of(s, target).frozen.value
  {
    hide Serve, TakesSnapshot, DropsRecords, ReadsSnapshot;
    if Concerns(input, target) {
      ServeKeepsSnapshot(Of(s, target), s.limit, target.Datadog?, input.verb, input.path, input.env);
    }
  }

  /** Over any run without a dump and without a reset of the protocol, its snapshot stays
      the same and every validation and every candidate is computed from it. */
  lemma {:induction false} SnapshotStable(s: State, inputs: seq<Input>, target: Target)
    requires !target.Neither? && Of(s, target).frozen.Some?
    requires forall i :: 0 <= i < |inputs| ==> LeavesSnapshot(inputs[i], target)
    ensures Of(Run(s, inputs), target).frozen == Of(s, target).frozen
    ensures forall i :: 0 <= i < |inputs| && Concerns(inputs[i], target) &&
                        ReadsSnapshot(inputs[i].verb, inputs[i].path) ==>
              Step(Run(s, inputs[..i]), inputs[i]).1.seen == Of(s, target).frozen.value
  {
    hide Step, Concerns, LeavesSnapshot, ReadsSnapshot, Of;
    if inputs != [] {
      var n := |inputs| - 1;
      SnapshotStable(s, inputs[..n], target);
      StepKeepsSnapshot(Run(s, inputs[..n]), inputs[n], target);
      forall i | 0 <= i < |inputs|
        ensures i < n ==> inputs[..n][..i] == inputs[..i]
      {
      }
    }
  }

  // ---- The file over a run ----

  /** A dump or reset of the protocol that reaches the disk. */
  predicate Rewrites(input: Input, target: Target) {
    Concerns(input, target) && input.env.write.ok &&
    ((input.verb == "GET" && input.path == "/dump") || DropsRecords(input.verb, input.path))
  }

  predicate WrittenFor(input: Input, target: Target) {
    Concerns(input, target) ==> input.env.write.ok
  }

  lemma StepRewrites(s: State, input: Input, target: Target)
    requires Invariant(s) && !target.Neither? && Rewrites(input, target)
    ensures Durable(Of(Step(s, input).0, target))
  {
    hide Accounts, Durable, Dump, Reset;
    RewriteRepairs(Of(s, target), s.limit, ScopeOf(input.path), input.env.write);
  }

  lemma StepKeepsDurable(s: State, input: Input, target: Target)
    requires Invariant(s) && !target.Neither? && WrittenFor(input, target) && Durable(Of(s, target))
    ensures Durable(Of(Step(s, input).0, target))
  {
    hide Serve, Accounts, Stores, WrittenFor;
    if Concerns(input, target) {
      WriteReaches(input, target);
      ServeKeepsAccounts(Of(s, target), s.limit, target.Datadog?, input.verb, input.path, input.env);
    }
  }

  lemma WriteReaches(input: Input, target: Target)
    requires Concerns(input, target) && WrittenFor(input, target)
    ensures input.env.write.ok
  {
  }

  lemma RunAppend(s: State, inputs: seq<Input>, input: Input)
    ensures Run(s, inputs + [input]) == Step(Run(s, inputs), input).0
  {
    hide Step;
    assert (inputs + [input])[..|inputs|] == inputs;
  }

  /** Whatever went wrong before, the file of a protocol reads back as its records as long
      as no write failed since its last dump or reset that reached the disk. */
  lemma {:induction false} DurableSinceRewrite(stress: bool, before: seq<Input>, rewrite: Input, since: seq<Input>,
                                               target: Target)
    requires !target.Neither? && Rewrites(rewrite, target)
    requires forall i :: 0 <= i < |since| ==> WrittenFor(since[i], target)
    ensures Durable(Of(Run(Initial(stress), before + [rewrite] + since), target))
    decreases |since|
  {
    hide Run, Step, Durable, WrittenFor, Rewrites, Invariant, Of;
    var start := Initial(stress);
    RunInvariant(stress, before);
    if since == [] {
      assert before + [rewrite] + since == before + [rewrite];
      RunAppend(start, before, rewrite);
      StepRewrites(Run(start, before), rewrite, target);
    } else {
      var n := |since| - 1;
      var shorter := before + [rewrite] + since[..n];
      assert before + [rewrite] + since == shorter + [since[n]];
      DurableSinceRewrite(stress, before, rewrite, since[..n], target);
      RunInvariant(stress, shorter);
      RunAppend(start, shorter, since[n]);
      StepKeepsDurable(Run(start, shorter), since[n], target);
    }
  }
}
