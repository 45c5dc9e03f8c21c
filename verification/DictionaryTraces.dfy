/** The v0.5 trace layout: spans as twelve fields whose strings are indexes into a
    dictionary, expanded into the v0.4 form. */
module DictionaryTraces {
  import opened Basics
  import opened Wrappers
  import opened MessagePack

  const U64_RANGE: nat := 0x1_0000_0000_0000_0000

  datatype ExpandError = BadShape | BadIndex | BadKey | DuplicateName | OverBudget

  // ---- Decimal index keys ----

  predicate IsDigit(b: Byte) {
    48 <= b <= 57
  }

  /** The value of a string of decimal digits. */
  function Digits(s: Text): Option<nat> {
    if s == [] then Some(0)
    else
      var init := Digits(s[..|s| - 1]);
      if init.Some? && IsDigit(s[|s| - 1]) then Some(10 * init.value + (s[|s| - 1] - 48)) else None
  }

  /** An unsigned 64-bit number in decimal, with the optional plus sign that the
      standard parser also accepts. */
  function ParseU64(s: Text): Option<nat> {
    var digits := if s != [] && s[0] == 43 then s[1..] else s;
    if digits == [] then None
    else
      var n := Digits(digits);
      if n.Some? && n.value < U64_RANGE then n else None
  }

  /** The dictionary index in an escaped map key. */
  function KeyIndex(key: Text): Option<nat> {
    if INDEX_PREFIX <= key then ParseU64(key[|INDEX_PREFIX|..]) else None
  }

  lemma {:induction false} DigitsOfDecimal(n: nat)
    ensures Digits(Decimal(n)) == Some(n) && IsDigit(Decimal(n)[0])
  {
    if n >= 10 {
      DigitsOfDecimal(n / 10);
      assert Decimal(n)[..|Decimal(n)| - 1] == Decimal(n / 10);
      assert Decimal(n)[0] == Decimal(n / 10)[0];
    } else {
      assert [48 + n][..0] == [];
    }
  }

  /** The escape of a dictionary index parses back to the same number. */
  lemma EscapeParsesBack(n: nat)
    ensures KeyIndex(INDEX_PREFIX + Decimal(n)) == if n < U64_RANGE then Some(n) else None
  {
    DigitsOfDecimal(n);
    var key := INDEX_PREFIX + Decimal(n);
    assert key[|INDEX_PREFIX|..] == Decimal(n);
  }

  // ---- What an encoded value denotes ----

  /** The value is the index of the string. */
  ghost predicate Looks(dict: seq<Text>, v: Value, s: Text) {
    v.Int? && 0 <= v.n < |dict| && v.n < U64_RANGE && dict[v.n] == s
  }

  ghost predicate KeyNames(dict: seq<Text>, key: Text, name: Text) {
    KeyIndex(key).Some? && KeyIndex(key).value < |dict| && dict[KeyIndex(key).value] == name
  }

  ghost predicate DenotesEntry(dict: seq<Text>, v: Value, isMeta: bool, out: Value) {
    if isMeta then out.Str? && Looks(dict, v, out.text) else out == v
  }

  /** An index-keyed map denotes the map in which every key is replaced by the string
      it names, no two keys naming the same string. */
  ghost predicate DenotesMap(dict: seq<Text>, fields: map<Text, Value>, isMeta: bool, out: map<Text, Value>) {
    && (forall k :: k in fields ==> exists name :: KeyNames(dict, k, name))
    && (forall k, name :: k in fields && KeyNames(dict, k, name) ==>
          name in out && DenotesEntry(dict, fields[k], isMeta, out[name]))
    && (forall k, l, name :: k in fields && l in fields && KeyNames(dict, k, name) && KeyNames(dict, l, name) ==>
       k == l)
    && (forall name :: name in out ==> exists k :: k in fields && KeyNames(dict, k, name))
  }

  predicate IsLookup(i: nat) {
    i <= 2 || i == 11
  }

  predicate IsMap(i: nat) {
    i == 9 || i == 10
  }

  ghost predicate DenotesField(dict: seq<Text>, i: nat, field: Value, out: Value) {
    if IsLookup(i) then out.Str? && Looks(dict, field, out.text)
    else if IsMap(i) then field.Object? && out.Object? && DenotesMap(dict, field.fields, i == 9, out.fields)
    else out == field
  }

  ghost predicate DenotesSpan(dict: seq<Text>, span: Value, out: seq<Value>) {
    span.Array? && |span.items| == 12 && |out| == 12 &&
    forall i :: 0 <= i < 12 ==> DenotesField(dict, i, span.items[i], out[i])
  }

  ghost predicate DenotesTrace(dict: seq<Text>, trace: Value, out: seq<seq<Value>>) {
    trace.Array? && |out| == |trace.items| && forall i :: 0 <= i < |out| ==> DenotesSpan(dict, trace.items[i], out[i])
  }

  ghost predicate DenotesTraces(dict: seq<Text>, traces: seq<Value>, out: seq<seq<seq<Value>>>) {
    |out| == |traces| && forall i :: 0 <= i < |out| ==> DenotesTrace(dict, traces[i], out[i])
  }

  // service, name, resource, trace_id, span_id, parent_id, start, duration, error, meta, metrics, type
  const FIELD_NAMES: seq<Text> := [
    [115, 101, 114, 118, 105, 99, 101],
    [110, 97, 109, 101],
    [114, 101, 115, 111, 117, 114, 99, 101],
    [116, 114, 97, 99, 101, 95, 105, 100],
    [115, 112, 97, 110, 95, 105, 100],
    [112, 97, 114, 101, 110, 116, 95, 105, 100],
    [115, 116, 97, 114, 116],
    [100, 117, 114, 97, 116, 105, 111, 110],
    [101, 114, 114, 111, 114],
    [109, 101, 116, 97],
    [109, 101, 116, 114, 105, 99, 115],
    [116, 121, 112, 101]
  ]

  /** A v0.4 span with its twelve fields under their names. */
  function NamedSpan(values: seq<Value>): Value
    requires |values| == 12
  {
    Object(NamedFields(values, 12))
  }

  function NamedFields(values: seq<Value>, n: nat): map<Text, Value>
    requires n <= |values| == 12
  {
    if n == 0 then map[] else NamedFields(values, n - 1)[FIELD_NAMES[n - 1] := values[n - 1]]
  }

  function NamedTrace(spans: seq<seq<Value>>): Value
    requires forall i :: 0 <= i < |spans| ==> |spans[i]| == 12
  {
    Array(seq(|spans|, i requires 0 <= i < |spans| => NamedSpan(spans[i])))
  }

  // ---- Cost of the expanded strings ----

  /** A looked-up string costs its bytes and one value. */
  function LookupCost(s: Text, valueSize: nat): nat {
    |s| + valueSize
  }

  predicate IsIndex(dict: seq<Text>, v: Value) {
    v.Int? && 0 <= v.n < |dict| && v.n < U64_RANGE
  }

  function IndexCost(dict: seq<Text>, v: Value, valueSize: nat): nat {
    if IsIndex(dict, v) then LookupCost(dict[v.n], valueSize) else 0
  }

  function KeyCost(dict: seq<Text>, k: Text, valueSize: nat): nat {
    if KeyIndex(k).Some? && KeyIndex(k).value < |dict| then LookupCost(dict[KeyIndex(k).value], valueSize) else 0
  }

  function EntryCost(dict: seq<Text>, k: Text, v: Value, isMeta: bool, valueSize: nat): nat {
    KeyCost(dict, k, valueSize) + if isMeta then IndexCost(dict, v, valueSize) else 0
  }

  ghost function MapCost(dict: seq<Text>, fields: map<Text, Value>, isMeta: bool, valueSize: nat): nat
    decreases |fields|
  {
    if fields == map[] then 0
    else
      var k :| k in fields;
      EntryCost(dict, k, fields[k], isMeta, valueSize) + MapCost(dict, fields - {k}, isMeta, valueSize)
  }

  /** Any entry may be counted first. */
  lemma {:induction false} MapCostWithout(dict: seq<Text>, fields: map<Text, Value>, isMeta: bool, valueSize: nat,
                                          k: Text)
    requires k in fields
    ensures MapCost(dict, fields, isMeta, valueSize) ==
            EntryCost(dict, k, fields[k], isMeta, valueSize) + MapCost(dict, fields - {k}, isMeta, valueSize)
    decreases |fields|
  {
    hide EntryCost;
    var l :| l in fields && MapCost(dict, fields, isMeta, valueSize) ==
                            EntryCost(dict, l, fields[l], isMeta, valueSize) +
                              MapCost(dict, fields - {l}, isMeta, valueSize);
    if l != k {
      MapCostWithout(dict, fields - {l}, isMeta, valueSize, k);
      MapCostWithout(dict, fields - {k}, isMeta, valueSize, l);
      assert fields - {l} - {k} == fields - {k} - {l};
    }
  }

  ghost function FieldCost(dict: seq<Text>, i: nat, v: Value, valueSize: nat): nat {
    if IsLookup(i) then IndexCost(dict, v, valueSize)
    else if IsMap(i) && v.Object? then MapCost(dict, v.fields, i == 9, valueSize)
    else 0
  }

  ghost function FieldsCost(dict: seq<Text>, fields: seq<Value>, valueSize: nat): nat {
    if fields == [] then 0
    else FieldsCost(dict, fields[..|fields| - 1], valueSize) +
         FieldCost(dict, |fields| - 1, fields[|fields| - 1], valueSize)
  }

  ghost function SpansCost(dict: seq<Text>, spans: seq<Value>, valueSize: nat): nat {
    if spans == [] then 0
    else
      var last := spans[|spans| - 1];
      SpansCost(dict, spans[..|spans| - 1], valueSize) + if last.Array? then FieldsCost(dict, last.items, valueSize)
        else 0
  }

  ghost function TracesCost(dict: seq<Text>, traces: seq<Value>, valueSize: nat): nat {
    if traces == [] then 0
    else
      var last := traces[|traces| - 1];
      TracesCost(dict, traces[..|traces| - 1], valueSize) + if last.Array? then SpansCost(dict, last.items, valueSize)
        else 0
  }

  lemma {:induction false} PrefixCost(dict: seq<Text>, fields: seq<Value>, n: nat, valueSize: nat)
    requires n <= |fields|
    ensures FieldsCost(dict, fields[..n], valueSize) <= FieldsCost(dict, fields, valueSize)
    ensures SpansCost(dict, fields[..n], valueSize) <= SpansCost(dict, fields, valueSize)
    ensures TracesCost(dict, fields[..n], valueSize) <= TracesCost(dict, fields, valueSize)
    decreases |fields|
  {
    hide FieldCost;
    if n == |fields| {
      assert fields[..n] == fields;
    } else {
      PrefixCost(dict, fields[..|fields| - 1], n, valueSize);
      assert fields[..|fields| - 1][..n] == fields[..n];
    }
  }

  // ---- The expansion ----

  /** A looked-up string and what is left of the budget. */
  method Lookup(dict: seq<Text>, v: Value, valueSize: nat, remaining: nat) returns (r: Option<Text>, left: nat)
    ensures r.Some? <==> IsIndex(dict, v) && IndexCost(dict, v, valueSize) <= remaining
    ensures r.Some? ==> r.value == dict[v.n] && left == remaining - IndexCost(dict, v, valueSize)
  {
    left := remaining;
    if !v.Int? || v.n < 0 || v.n >= U64_RANGE || v.n >= |dict| {
      return None, left;
    }
    var cost := |dict[v.n]| + valueSize;
    if cost > remaining {
      return None, left;
    }
    return Some(dict[v.n]), remaining - cost;
  }

  method ExpandEntry(dict: seq<Text>, key: Text, v: Value, isMeta: bool, valueSize: nat, remaining: nat)
    returns (r: Option<(Text, Value)>, left: nat)
    ensures r.Some? <==>
            && (exists name :: KeyNames(dict, key, name)) && (exists out :: DenotesEntry(dict, v, isMeta, out))
            && EntryCost(dict, key, v, isMeta, valueSize) <= remaining
    ensures r.Some? ==> KeyNames(dict, key, r.value.0) && DenotesEntry(dict, v, isMeta, r.value.1)
    ensures r.Some? ==> left == remaining - EntryCost(dict, key, v, isMeta, valueSize)
  {
    left := remaining;
    var index := KeyIndex(key);
    if index.None? {
      return None, left;
    }
    KeyIndexInRange(key);
    var name;
    name, left := Lookup(dict, Int(index.value), valueSize, left);
    if name.None? {
      return None, left;
    }
    assert KeyNames(dict, key, name.value);
    if !isMeta {
      assert DenotesEntry(dict, v, isMeta, v);
      return Some((name.value, v)), left;
    }
    var text;
    text, left := Lookup(dict, v, valueSize, left);
    if text.None? {
      return None, left;
    }
    assert DenotesEntry(dict, v, isMeta, Str(text.value));
    return Some((name.value, Str(text.value))), left;
  }

  lemma KeyIndexInRange(key: Text)
    requires KeyIndex(key).Some?
    ensures KeyIndex(key).value < U64_RANGE
  {
  }

  lemma DenotesMapGrows(dict: seq<Text>, done: map<Text, Value>, isMeta: bool, out: map<Text, Value>, k: Text, v: Value,
                        name: Text, value: Value)
    requires DenotesMap(dict, done, isMeta, out) && k !in done && name !in out
    requires KeyNames(dict, k, name) && DenotesEntry(dict, v, isMeta, value)
    ensures DenotesMap(dict, done[k := v], isMeta, out[name := value])
  {
    hide DenotesEntry;
    var next, grown := done[k := v], out[name := value];
    forall n | n in grown
      ensures exists l :: l in next && KeyNames(dict, l, n)
    {
      if n == name {
        assert k in next;
      } else {
        var l :| l in done && KeyNames(dict, l, n);
        assert l in next;
      }
    }
  }

  // `done` and `rest` split the fields, and `done` has been expanded into `entries`.
  ghost predicate Expanded(dict: seq<Text>, fields: map<Text, Value>, isMeta: bool,
                           rest: map<Text, Value>, done: map<Text, Value>, entries: map<Text, Value>) {
    && rest.Keys + done.Keys == fields.Keys && rest.Keys !! done.Keys
    && (forall k :: k in rest ==> rest[k] == fields[k])
    && (forall k :: k in done ==> done[k] == fields[k])
    && DenotesMap(dict, done, isMeta, entries)
  }

  lemma ExpandedNext(dict: seq<Text>, fields: map<Text, Value>, isMeta: bool, rest: map<Text, Value>,
                     done: map<Text, Value>, entries: map<Text, Value>, k: Text, name: Text, value: Value)
    requires Expanded(dict, fields, isMeta, rest, done, entries) && k in rest
    requires KeyNames(dict, k, name) && DenotesEntry(dict, rest[k], isMeta, value)
    ensures k in fields && rest[k] == fields[k]
    ensures name in entries ==> !exists out :: DenotesMap(dict, fields, isMeta, out)
    ensures name !in entries ==> Expanded(dict, fields, isMeta, rest - {k}, done[k := rest[k]], entries[name := value])
  {
    hide KeyNames, DenotesEntry;
    if name in entries {
      RepeatedNameNoMap(dict, fields, isMeta, done, entries, k, name);
    } else {
      DenotesMapGrows(dict, done, isMeta, entries, k, rest[k], name, value);
    }
  }

  method ExpandMap(dict: seq<Text>, fields: map<Text, Value>, isMeta: bool, valueSize: nat, remaining: nat)
    returns (r: Option<map<Text, Value>>, left: nat)
    ensures r.Some? <==> (exists out :: DenotesMap(dict, fields, isMeta, out)) &&
                         MapCost(dict, fields, isMeta, valueSize) <= remaining
    ensures r.Some? ==> DenotesMap(dict, fields, isMeta, r.value) &&
                        left == remaining - MapCost(dict, fields, isMeta, valueSize)
  {
    left := remaining;
    var rest, entries: map<Text, Value> := fields, map[];
    ghost var done: map<Text, Value> := map[];
    NothingCosts(dict, isMeta, valueSize);
    hide KeyNames, DenotesEntry, EntryCost, MapCost, DenotesMap;
    while rest != map[]
      invariant Expanded(dict, fields, isMeta, rest, done, entries)
      invariant left + MapCost(dict, fields, isMeta, valueSize) == remaining + MapCost(dict, rest, isMeta, valueSize)
      decreases |rest|
    {
      hide Expanded;
      var k :| k in rest;
      MapCostWithout(dict, rest, isMeta, valueSize, k);
      RestAgrees(dict, fields, isMeta, rest, done, entries, k);
      var entry;
      entry, left := ExpandEntry(dict, k, rest[k], isMeta, valueSize, left);
      if entry.None? {
        NoEntryNoMap(dict, fields, isMeta, k);
        return None, left;
      }
      var (name, value) := entry.value;
      ExpandedNext(dict, fields, isMeta, rest, done, entries, k, name, value);
      if name in entries {
        return None, left;
      }
      assert |rest - {k}| < |rest| by {
        assert (rest - {k}).Keys == rest.Keys - {k};
      }
      entries, done, rest := entries[name := value], done[k := rest[k]], rest - {k};
    }
    assert done == fields;
    return Some(entries), left;
  }

  lemma RestAgrees(dict: seq<Text>, fields: map<Text, Value>, isMeta: bool, rest: map<Text, Value>,
                   done: map<Text, Value>, entries: map<Text, Value>, k: Text)
    requires Expanded(dict, fields, isMeta, rest, done, entries) && k in rest
    ensures k in fields && rest[k] == fields[k]
  {
    hide DenotesMap;
  }

  lemma NothingCosts(dict: seq<Text>, isMeta: bool, valueSize: nat)
    ensures MapCost(dict, map[], isMeta, valueSize) == 0 && DenotesMap(dict, map[], isMeta, map[])
  {
  }

  lemma NoEntryNoMap(dict: seq<Text>, fields: map<Text, Value>, isMeta: bool, k: Text)
    requires k in fields
    ensures (exists out :: DenotesMap(dict, fields, isMeta, out)) ==>
              (exists name :: KeyNames(dict, k, name)) && (exists v :: DenotesEntry(dict, fields[k], isMeta, v))
  {
    hide KeyNames, DenotesEntry;
    if out :| DenotesMap(dict, fields, isMeta, out) {
      var name :| KeyNames(dict, k, name);
      assert DenotesEntry(dict, fields[k], isMeta, out[name]);
    }
  }

  lemma RepeatedNameNoMap(dict: seq<Text>, fields: map<Text, Value>, isMeta: bool, done: map<Text, Value>,
                          entries: map<Text, Value>, k: Text, name: Text)
    requires k in fields && k !in done && done.Keys <= fields.Keys && DenotesMap(dict, done, isMeta, entries)
    requires name in entries && KeyNames(dict, k, name)
    ensures !exists out :: DenotesMap(dict, fields, isMeta, out)
  {
    hide KeyNames, DenotesEntry;
    var l :| l in done && KeyNames(dict, l, name);
  }

  method ExpandField(dict: seq<Text>, i: nat, field: Value, valueSize: nat, remaining: nat)
    returns (r: Option<Value>, left: nat)
    ensures r.Some? <==> (exists out :: DenotesField(dict, i, field, out)) &&
                         FieldCost(dict, i, field, valueSize) <= remaining
    ensures r.Some? ==> DenotesField(dict, i, field, r.value) &&
                        left == remaining - FieldCost(dict, i, field, valueSize)
  {
    hide DenotesMap, MapCost;
    left := remaining;
    if IsLookup(i) {
      var text;
      text, left := Lookup(dict, field, valueSize, left);
      if text.None? {
        return None, left;
      }
      r := Some(Str(text.value));
    } else if IsMap(i) {
      if !field.Object? {
        return None, left;
      }
      var entries;
      entries, left := ExpandMap(dict, field.fields, i == 9, valueSize, left);
      if entries.None? {
        assert forall out :: DenotesField(dict, i, field, out) ==> DenotesMap(dict, field.fields, i == 9, out.fields);
        return None, left;
      }
      r := Some(Object(entries.value));
    } else {
      r := Some(field);
    }
    assert DenotesField(dict, i, field, r.value);
  }

  method ExpandSpan(dict: seq<Text>, span: Value, valueSize: nat, remaining: nat)
    returns (r: Option<seq<Value>>, left: nat)
    ensures r.Some? <==> span.Array? && (exists out :: DenotesSpan(dict, span, out)) &&
                         FieldsCost(dict, span.items, valueSize) <= remaining
    ensures r.Some? ==> DenotesSpan(dict, span, r.value) && left == remaining - FieldsCost(dict, span.items, valueSize)
  {
    hide DenotesField, FieldCost;
    left := remaining;
    if !span.Array? || |span.items| != 12 {
      return None, left;
    }
    var native: seq<Value> := [];
    for i := 0 to 12
      invariant |native| == i && forall k :: 0 <= k < i ==> DenotesField(dict, k, span.items[k], native[k])
      invariant left + FieldsCost(dict, span.items[..i], valueSize) == remaining
    {
      assert span.items[..i + 1][..i] == span.items[..i];
      PrefixCost(dict, span.items, i + 1, valueSize);
      var value;
      value, left := ExpandField(dict, i, span.items[i], valueSize, left);
      if value.None? {
        return None, left;
      }
      native := native + [value.value];
    }
    assert span.items[..12] == span.items;
    assert DenotesSpan(dict, span, native);
    r := Some(native);
  }

  method ExpandTrace(dict: seq<Text>, trace: Value, valueSize: nat, remaining: nat)
    returns (r: Option<seq<seq<Value>>>, left: nat)
    ensures r.Some? <==> trace.Array? && (exists out :: DenotesTrace(dict, trace, out)) &&
                         SpansCost(dict, trace.items, valueSize) <= remaining
    ensures r.Some? ==> DenotesTrace(dict, trace, r.value) &&
                        left == remaining - SpansCost(dict, trace.items, valueSize)
  {
    hide DenotesSpan, FieldsCost;
    left := remaining;
    if !trace.Array? {
      return None, left;
    }
    var spans: seq<seq<Value>> := [];
    for i := 0 to |trace.items|
      invariant |spans| == i && forall k :: 0 <= k < i ==> DenotesSpan(dict, trace.items[k], spans[k])
      invariant left + SpansCost(dict, trace.items[..i], valueSize) == remaining
    {
      assert trace.items[..i + 1][..i] == trace.items[..i];
      PrefixCost(dict, trace.items, i + 1, valueSize);
      var span;
      span, left := ExpandSpan(dict, trace.items[i], valueSize, left);
      if span.None? {
        NoSpanNoTrace(dict, trace, i);
        return None, left;
      }
      spans := spans + [span.value];
    }
    assert trace.items[..|trace.items|] == trace.items;
    assert DenotesTrace(dict, trace, spans);
    r := Some(spans);
  }

  lemma NoSpanNoTrace(dict: seq<Text>, trace: Value, i: nat)
    requires trace.Array? && i < |trace.items|
    ensures (exists out :: DenotesTrace(dict, trace, out)) ==>
              trace.items[i].Array? && exists out :: DenotesSpan(dict, trace.items[i], out)
  {
    hide DenotesField;
    if out :| DenotesTrace(dict, trace, out) {
      assert DenotesSpan(dict, trace.items[i], out[i]);
    }
  }

  method ExpandTraces(dict: seq<Text>, traces: seq<Value>, valueSize: nat, maxBytes: nat)
    returns (r: Option<seq<seq<seq<Value>>>>)
    ensures r.Some? <==> (exists out :: DenotesTraces(dict, traces, out)) &&
                         TracesCost(dict, traces, valueSize) <= maxBytes
    ensures r.Some? ==> DenotesTraces(dict, traces, r.value)
  {
    hide DenotesTrace, SpansCost;
    var left: nat := maxBytes;
    var decoded: seq<seq<seq<Value>>> := [];
    for i := 0 to |traces|
      invariant |decoded| == i && forall k :: 0 <= k < i ==> DenotesTrace(dict, traces[k], decoded[k])
      invariant left + TracesCost(dict, traces[..i], valueSize) == maxBytes
    {
      assert traces[..i + 1][..i] == traces[..i];
      PrefixCost(dict, traces, i + 1, valueSize);
      var trace;
      trace, left := ExpandTrace(dict, traces[i], valueSize, left);
      if trace.None? {
        NoTraceNoTraces(dict, traces, i);
        return None;
      }
      decoded := decoded + [trace.value];
    }
    assert traces[..|traces|] == traces;
    assert DenotesTraces(dict, traces, decoded);
    r := Some(decoded);
  }

  lemma NoTraceNoTraces(dict: seq<Text>, traces: seq<Value>, i: nat)
    requires i < |traces|
    ensures (exists out :: DenotesTraces(dict, traces, out)) ==>
            traces[i].Array? && exists out :: DenotesTrace(dict, traces[i], out)
  {
    hide DenotesSpan;
    if out :| DenotesTraces(dict, traces, out) {
      assert DenotesTrace(dict, traces[i], out[i]);
    }
  }

  // ---- The whole payload ----

  ghost predicate IsPair(payload: Value) {
    payload.Array? && |payload.items| == 2 && payload.items[0].Array? && payload.items[1].Array? &&
    forall i :: 0 <= i < |payload.items[0].items| ==> payload.items[0].items[i].Str?
  }

  function Dictionary(items: seq<Value>): seq<Text>
    requires forall i :: 0 <= i < |items| ==> items[i].Str?
  {
    seq(|items|, i requires 0 <= i < |items| => items[i].text)
  }

  /** The payload is a dictionary of strings with traces that denote `out`. */
  ghost predicate DenotesPayload(payload: Value, out: seq<seq<seq<Value>>>) {
    IsPair(payload) && DenotesTraces(Dictionary(payload.items[0].items), payload.items[1].items, out)
  }

  ghost function PayloadCost(payload: Value, valueSize: nat): nat {
    if IsPair(payload) then TracesCost(Dictionary(payload.items[0].items), payload.items[1].items, valueSize) else 0
  }

  /** The traces in the v0.4 form. */
  function NamedTraces(traces: seq<seq<seq<Value>>>): Value
    requires forall i, j :: 0 <= i < |traces| && 0 <= j < |traces[i]| ==> |traces[i][j]| == 12
  {
    Array(seq(|traces|, i requires 0 <= i < |traces| => NamedTrace(traces[i])))
  }

  lemma DenotedSpansHaveTwelveFields(payload: Value, out: seq<seq<seq<Value>>>)
    requires DenotesPayload(payload, out)
    ensures forall i, j :: 0 <= i < |out| && 0 <= j < |out[i]| ==> |out[i][j]| == 12
  {
    hide DenotesField;
    var dict, traces := Dictionary(payload.items[0].items), payload.items[1].items;
    forall i, j | 0 <= i < |out| && 0 <= j < |out[i]|
      ensures |out[i][j]| == 12
    {
      assert DenotesTrace(dict, traces[i], out[i]);
      assert DenotesSpan(dict, traces[i].items[j], out[i][j]);
    }
  }

  ghost predicate NamesTraces(payload: Value, out: seq<seq<seq<Value>>>, v: Value) {
    && DenotesPayload(payload, out)
    && (forall i, j :: 0 <= i < |out| && 0 <= j < |out[i]| ==> |out[i][j]| == 12)
    && v == NamedTraces(out)
  }

  /** The expansion succeeds exactly when the payload denotes traces and all strings
      looked up fit the byte limit, and then returns those traces. */
  method Expand(payload: Value, valueSize: nat, maxBytes: nat) returns (r: Result<Value, ExpandError>)
    ensures r.Ok? <==> (exists out :: DenotesPayload(payload, out)) && PayloadCost(payload, valueSize) <= maxBytes
    ensures r.Ok? ==> exists out :: NamesTraces(payload, out, r.value)
  {
    if !payload.Array? || |payload.items| != 2 || !payload.items[0].Array? {
      return Err(BadShape);
    }
    var entries := payload.items[0].items;
    for i := 0 to |entries|
      invariant forall k :: 0 <= k < i ==> entries[k].Str?
    {
      if !entries[i].Str? {
        return Err(BadShape);
      }
    }
    if !payload.items[1].Array? {
      return Err(BadShape);
    }
    hide DenotesTraces, TracesCost;
    var traces := ExpandTraces(Dictionary(entries), payload.items[1].items, valueSize, maxBytes);
    if traces.None? {
      return Err(OverBudget);
    }
    assert DenotesPayload(payload, traces.value);
    DenotedSpansHaveTwelveFields(payload, traces.value);
    r := Ok(NamedTraces(traces.value));
    assert NamesTraces(payload, traces.value, r.value);
  }

  // ---- A payload denotes at most one thing ----

  lemma MapDenotesOne(dict: seq<Text>, fields: map<Text, Value>, isMeta: bool, a: map<Text, Value>, b: map<Text, Value>)
    requires DenotesMap(dict, fields, isMeta, a) && DenotesMap(dict, fields, isMeta, b)
    ensures a == b
  {
    hide KeyNames;
    forall name
      ensures name in a <==> name in b
      ensures name in a ==> a[name] == b[name]
    {
      if name in a {
        var k :| k in fields && KeyNames(dict, k, name);
      }
      if name in b {
        var k :| k in fields && KeyNames(dict, k, name);
      }
    }
  }

  lemma SpanDenotesOne(dict: seq<Text>, span: Value, a: seq<Value>, b: seq<Value>)
    requires DenotesSpan(dict, span, a) && DenotesSpan(dict, span, b)
    ensures a == b
  {
    hide DenotesMap;
    forall i | 0 <= i < 12
      ensures a[i] == b[i]
    {
      assert DenotesField(dict, i, span.items[i], a[i]) && DenotesField(dict, i, span.items[i], b[i]);
      if IsMap(i) {
        MapDenotesOne(dict, span.items[i].fields, i == 9, a[i].fields, b[i].fields);
      }
    }
  }

  lemma DenotesOne(payload: Value, a: seq<seq<seq<Value>>>, b: seq<seq<seq<Value>>>)
    requires DenotesPayload(payload, a) && DenotesPayload(payload, b)
    ensures a == b
  {
    hide DenotesSpan;
    var dict, traces := Dictionary(payload.items[0].items), payload.items[1].items;
    forall i | 0 <= i < |traces|
      ensures a[i] == b[i]
    {
      assert DenotesTrace(dict, traces[i], a[i]) && DenotesTrace(dict, traces[i], b[i]);
      forall j | 0 <= j < |a[i]|
        ensures a[i][j] == b[i][j]
      {
        SpanDenotesOne(dict, traces[i].items[j], a[i][j], b[i][j]);
      }
    }
  }

  // ---- Encoding against a dictionary ----

  ghost function IndexOf(dict: seq<Text>, s: Text): nat
    requires s in dict
  {
    var i: nat :| i < |dict| && dict[i] == s; i
  }

  ghost function KeyFor(dict: seq<Text>, s: Text): Text
    requires s in dict
  {
    INDEX_PREFIX + Decimal(IndexOf(dict, s))
  }

  lemma KeyForNames(dict: seq<Text>, s: Text)
    requires s in dict && |dict| <= U64_RANGE
    ensures forall name :: KeyNames(dict, KeyFor(dict, s), name) <==> name == s
  {
    EscapeParsesBack(IndexOf(dict, s));
  }

  lemma KeysDiffer(dict: seq<Text>, s: Text, t: Text)
    requires s in dict && t in dict && s != t && |dict| <= U64_RANGE
    ensures KeyFor(dict, s) != KeyFor(dict, t)
  {
    hide KeyFor, KeyNames;
    KeyForNames(dict, s);
    KeyForNames(dict, t);
    assert KeyNames(dict, KeyFor(dict, s), s);
  }

  /** Every string the span needs is in the dictionary. */
  ghost predicate MapEncodable(dict: seq<Text>, m: map<Text, Value>, isMeta: bool) {
    forall name :: name in m ==> name in dict && (isMeta ==> m[name].Str? && m[name].text in dict)
  }

  ghost predicate FieldEncodable(dict: seq<Text>, i: nat, v: Value) {
    if IsLookup(i) then v.Str? && v.text in dict
    else if IsMap(i) then v.Object? && MapEncodable(dict, v.fields, i == 9)
    else true
  }

  ghost predicate SpanEncodable(dict: seq<Text>, values: seq<Value>) {
    |values| == 12 && forall i :: 0 <= i < 12 ==> FieldEncodable(dict, i, values[i])
  }

  ghost predicate TracesEncodable(dict: seq<Text>, traces: seq<seq<seq<Value>>>) {
    |dict| <= U64_RANGE &&
    forall i, j :: 0 <= i < |traces| && 0 <= j < |traces[i]| ==> SpanEncodable(dict, traces[i][j])
  }

  ghost function EncodeEntry(dict: seq<Text>, v: Value, isMeta: bool): Value
    requires isMeta ==> v.Str? && v.text in dict
  {
    if isMeta then Int(IndexOf(dict, v.text)) else v
  }

  lemma KeysDistinct(dict: seq<Text>, names: set<Text>)
    requires |dict| <= U64_RANGE && forall name :: name in names ==> name in dict
    ensures forall s, t :: s in names && t in names && KeyFor(dict, s) == KeyFor(dict, t) ==> s == t
  {
    hide KeyFor;
    forall s, t | s in names && t in names && s != t
      ensures KeyFor(dict, s) != KeyFor(dict, t)
    {
      KeysDiffer(dict, s, t);
    }
  }

  ghost function EncodeMap(dict: seq<Text>, m: map<Text, Value>, isMeta: bool): map<Text, Value>
    requires |dict| <= U64_RANGE && MapEncodable(dict, m, isMeta)
  {
    hide KeyFor, EncodeEntry;
    KeysDistinct(dict, m.Keys);
    map name | name in m :: KeyFor(dict, name) := EncodeEntry(dict, m[name], isMeta)
  }

  ghost function EncodeField(dict: seq<Text>, i: nat, v: Value): Value
    requires |dict| <= U64_RANGE && FieldEncodable(dict, i, v)
  {
    if IsLookup(i) then Int(IndexOf(dict, v.text))
    else if IsMap(i) then Object(EncodeMap(dict, v.fields, i == 9))
    else v
  }

  ghost function EncodeSpan(dict: seq<Text>, values: seq<Value>): Value
    requires |dict| <= U64_RANGE && SpanEncodable(dict, values)
  {
    Array(seq(12, i requires 0 <= i < 12 => EncodeField(dict, i, values[i])))
  }

  ghost function EncodeTrace(dict: seq<Text>, spans: seq<seq<Value>>): Value
    requires |dict| <= U64_RANGE && forall j :: 0 <= j < |spans| ==> SpanEncodable(dict, spans[j])
  {
    Array(seq(|spans|, j requires 0 <= j < |spans| => EncodeSpan(dict, spans[j])))
  }

  ghost function EncodePayload(dict: seq<Text>, traces: seq<seq<seq<Value>>>): Value
    requires TracesEncodable(dict, traces)
  {
    Array([Array(seq(|dict|, i requires 0 <= i < |dict| => Str(dict[i]))),
           Array(seq(|traces|, i requires 0 <= i < |traces| => EncodeTrace(dict, traces[i])))])
  }

  lemma EncodedEntryDenotes(dict: seq<Text>, v: Value, isMeta: bool)
    requires |dict| <= U64_RANGE && (isMeta ==> v.Str? && v.text in dict)
    ensures DenotesEntry(dict, EncodeEntry(dict, v, isMeta), isMeta, v)
  {
  }

  lemma EncodedMapDenotes(dict: seq<Text>, m: map<Text, Value>, isMeta: bool)
    requires |dict| <= U64_RANGE && MapEncodable(dict, m, isMeta)
    ensures DenotesMap(dict, EncodeMap(dict, m, isMeta), isMeta, m)
  {
    hide KeyNames, KeyFor, EncodeEntry, DenotesEntry;
    var fields := EncodeMap(dict, m, isMeta);
    KeysDistinct(dict, m.Keys);
    forall name | name in m
      ensures forall other :: KeyNames(dict, KeyFor(dict, name), other) <==> other == name
      ensures DenotesEntry(dict, EncodeEntry(dict, m[name], isMeta), isMeta, m[name])
    {
      KeyForNames(dict, name);
      EncodedEntryDenotes(dict, m[name], isMeta);
    }
    forall k | k in fields
      ensures exists name :: KeyNames(dict, k, name)
    {
      var name :| name in m && KeyFor(dict, name) == k;
      assert KeyNames(dict, k, name);
    }
    forall name | name in m
      ensures exists k :: k in fields && KeyNames(dict, k, name)
    {
      assert KeyNames(dict, KeyFor(dict, name), name);
    }
  }

  lemma EncodedFieldDenotes(dict: seq<Text>, i: nat, v: Value)
    requires |dict| <= U64_RANGE && FieldEncodable(dict, i, v)
    ensures DenotesField(dict, i, EncodeField(dict, i, v), v)
  {
    hide DenotesMap, EncodeMap;
    if IsMap(i) {
      EncodedMapDenotes(dict, v.fields, i == 9);
    }
  }

  /** Traces encoded against a dictionary expand to themselves and to nothing else. */
  lemma RoundTrip(dict: seq<Text>, traces: seq<seq<seq<Value>>>)
    requires TracesEncodable(dict, traces)
    ensures DenotesPayload(EncodePayload(dict, traces), traces)
    ensures forall out :: DenotesPayload(EncodePayload(dict, traces), out) ==> out == traces
  {
    hide DenotesField, EncodeField, FieldEncodable;
    var payload := EncodePayload(dict, traces);
    assert Dictionary(payload.items[0].items) == dict;
    forall i, j | 0 <= i < |traces| && 0 <= j < |traces[i]|
      ensures DenotesSpan(dict, EncodeSpan(dict, traces[i][j]), traces[i][j])
    {
      var values := traces[i][j];
      assert SpanEncodable(dict, values);
      forall k | 0 <= k < 12
        ensures DenotesField(dict, k, EncodeField(dict, k, values[k]), values[k])
      {
        EncodedFieldDenotes(dict, k, values[k]);
      }
    }
    forall i | 0 <= i < |traces|
      ensures DenotesTrace(dict, payload.items[1].items[i], traces[i])
    {
    }
    assert DenotesPayload(payload, traces);
    forall out | DenotesPayload(payload, out)
      ensures out == traces
    {
      DenotesOne(payload, out, traces);
    }
  }
}
