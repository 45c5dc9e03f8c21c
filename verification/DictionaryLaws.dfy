/** The v0.5 layout field by field: which of the twelve fields of a span come from the
    dictionary, under which names they are stored, and what they cost. */
module DictionaryLaws {
  import opened Basics
  import opened Wrappers
  import opened MessagePack
  import opened DictionaryTraces
  import opened DecoderBudget
  import opened MessagePackDecoder
  import opened MessagePackLaws
  import DatadogPayload

  // ---- Index keys ----

  lemma {:induction false} DigitsIff(s: Text, n: nat)
    requires s != []
    ensures Digits(s) == Some(n) <==> DigitsOf(s, n)
  {
    DigitsMean(s);
  }

  lemma {:induction false} DigitsMean(s: Text)
    ensures Digits(s).Some? <==> forall i :: 0 <= i < |s| ==> 48 <= s[i] <= 57
    ensures Digits(s).Some? ==> Digits(s).value == Value10(s, 0)
  {
    if s != [] {
      var n := |s| - 1;
      DigitsMean(s[..n]);
      assert s == s[..n] + [s[n]];
      if Digits(s).Some? {
        Value10Append(s[..n], s[n], 0);
      }
    }
  }

  /** The key is the escape of the index: U+0001, "index:" and the index in decimal, where
      the parser also takes a plus sign. */
  ghost predicate IndexKeyIs(key: Text, n: nat) {
    n <= 18446744073709551615 &&
    exists s :: DigitsOf(s, n) && (key == [1] + Ascii("index:") + s || key == [1] + Ascii("index:") + [43] + s)
  }

  lemma PrefixIs()
    ensures INDEX_PREFIX == [1] + Ascii("index:")
  {
  }

  lemma KeyIndexIff(key: Text, n: nat)
    ensures KeyIndex(key) == Some(n) <==> IndexKeyIs(key, n)
  {
    hide Digits, DigitsOf;
    PrefixIs();
    var prefix := INDEX_PREFIX;
    if KeyIndex(key) == Some(n) {
      var rest := key[|prefix|..];
      assert key == prefix + rest;
      if rest[0] == 43 {
        DigitsIff(rest[1..], n);
        assert key == prefix + [43] + rest[1..];
      } else {
        DigitsIff(rest, n);
      }
    }
    if IndexKeyIs(key, n) {
      var s :| DigitsOf(s, n) && (key == prefix + s || key == prefix + [43] + s);
      DigitsStart(s, n);
      DigitsIff(s, n);
      var rest := key[|prefix|..];
      assert rest == s || rest == [43] + s;
      assert rest[0] == 43 ==> rest[1..] == s;
    }
  }

  lemma DigitsStart(s: Text, n: nat)
    requires DigitsOf(s, n)
    ensures s != [] && s[0] != 43
  {
  }

  // ---- Maps ----

  /** The value is the index of a string of the dictionary, and the result is the string. */
  ghost predicate Looked(dict: seq<Text>, v: Value, out: Value) {
    v.Int? && 0 <= v.n < |dict| && v.n <= 18446744073709551615 && out == Str(dict[v.n])
  }

  /** The key is the escape of an index of the name. */
  ghost predicate KeyExpands(dict: seq<Text>, key: Text, name: Text) {
    exists n: nat :: n < |dict| && dict[n] == name && IndexKeyIs(key, n)
  }

  ghost predicate EntryExpands(dict: seq<Text>, v: Value, metadata: bool, out: Value) {
    if metadata then Looked(dict, v, out) else out == v
  }

  /** Every key becomes the string it is the index of, no two the same; the values of
      metadata become the strings they are indexes of, other values stay. */
  ghost predicate MapExpands(dict: seq<Text>, fields: map<Text, Value>, metadata: bool, out: map<Text, Value>) {
    && (forall k :: k in fields ==> exists name :: KeyExpands(dict, k, name))
    && (forall k, name :: k in fields && KeyExpands(dict, k, name) ==>
          name in out && EntryExpands(dict, fields[k], metadata, out[name]))
    && (forall k, l, name :: k in fields && l in fields && KeyExpands(dict, k, name) && KeyExpands(dict, l, name) ==>
          k == l)
    && (forall name :: name in out ==> exists k :: k in fields && KeyExpands(dict, k, name))
  }

  lemma NamesByIndex(dict: seq<Text>, key: Text, name: Text)
    ensures KeyNames(dict, key, name) <==> KeyExpands(dict, key, name)
  {
    hide IndexKeyIs, KeyIndex;
    if KeyNames(dict, key, name) {
      KeyIndexIff(key, KeyIndex(key).value);
    }
    if n: nat :| n < |dict| && dict[n] == name && IndexKeyIs(key, n) {
      KeyIndexIff(key, n);
    }
  }

  lemma EntryByIndex(dict: seq<Text>, v: Value, metadata: bool, out: Value)
    ensures DenotesEntry(dict, v, metadata, out) <==> EntryExpands(dict, v, metadata, out)
  {
  }

  lemma MapIff(dict: seq<Text>, fields: map<Text, Value>, metadata: bool, out: map<Text, Value>)
    ensures DenotesMap(dict, fields, metadata, out) <==> MapExpands(dict, fields, metadata, out)
  {
    hide KeyExpands, KeyNames, DenotesEntry, EntryExpands;
    forall key, name
      ensures KeyNames(dict, key, name) <==> KeyExpands(dict, key, name)
    {
      NamesByIndex(dict, key, name);
    }
    forall v, value
      ensures DenotesEntry(dict, v, metadata, value) <==> EntryExpands(dict, v, metadata, value)
    {
      EntryByIndex(dict, v, metadata, value);
    }
  }

  // ---- Spans ----

  /** The twelve fields by name: service, name, resource and type come from the dictionary,
      in meta keys and values, in metrics the keys; the other six are what they were. */
  ghost predicate SpanExpands(dict: seq<Text>, span: Value, out: Value) {
    && span.Array? && |span.items| == 12 && out.Object?
    && out.fields.Keys == {Ascii("service"), Ascii("name"), Ascii("resource"), Ascii("trace_id"), Ascii("span_id"),
                           Ascii("parent_id"), Ascii("start"), Ascii("duration"), Ascii("error"), Ascii("meta"),
                           Ascii("metrics"), Ascii("type")}
    && Looked(dict, span.items[0], out.fields[Ascii("service")])
    && Looked(dict, span.items[1], out.fields[Ascii("name")])
    && Looked(dict, span.items[2], out.fields[Ascii("resource")])
    && out.fields[Ascii("trace_id")] == span.items[3]
    && out.fields[Ascii("span_id")] == span.items[4]
    && out.fields[Ascii("parent_id")] == span.items[5]
    && out.fields[Ascii("start")] == span.items[6]
    && out.fields[Ascii("duration")] == span.items[7]
    && out.fields[Ascii("error")] == span.items[8]
    && span.items[9].Object? && out.fields[Ascii("meta")].Object?
    && MapExpands(dict, span.items[9].fields, true, out.fields[Ascii("meta")].fields)
    && span.items[10].Object? && out.fields[Ascii("metrics")].Object?
    && MapExpands(dict, span.items[10].fields, false, out.fields[Ascii("metrics")].fields)
    && Looked(dict, span.items[11], out.fields[Ascii("type")])
  }

  lemma FirstNames()
    ensures FIELD_NAMES[0] == Ascii("service") && FIELD_NAMES[1] == Ascii("name") && FIELD_NAMES[2] == Ascii("resource")
    ensures FIELD_NAMES[3] == Ascii("trace_id")
  {
  }

  lemma MiddleNames()
    ensures FIELD_NAMES[4] == Ascii("span_id") && FIELD_NAMES[5] == Ascii("parent_id")
    ensures FIELD_NAMES[6] == Ascii("start") && FIELD_NAMES[7] == Ascii("duration")
  {
  }

  lemma LastNames()
    ensures FIELD_NAMES[8] == Ascii("error") && FIELD_NAMES[9] == Ascii("meta") && FIELD_NAMES[10] == Ascii("metrics")
    ensures FIELD_NAMES[11] == Ascii("type")
  {
  }

  lemma Names()
    ensures FIELD_NAMES == [Ascii("service"), Ascii("name"), Ascii("resource"), Ascii("trace_id"), Ascii("span_id"),
                            Ascii("parent_id"), Ascii("start"), Ascii("duration"), Ascii("error"), Ascii("meta"),
                            Ascii("metrics"), Ascii("type")]
  {
    hide Ascii;
    FirstNames();
    MiddleNames();
    LastNames();
  }

  lemma NamesApart()
    ensures |FIELD_NAMES| == 12 && forall i, j :: 0 <= i < j < 12 ==> FIELD_NAMES[i] != FIELD_NAMES[j]
  {
    var lengths := [7, 4, 8, 8, 7, 9, 5, 8, 5, 4, 7, 4];
    var firsts := [115, 110, 114, 116, 115, 112, 115, 100, 101, 109, 109, 116];
    assert forall i :: 0 <= i < 12 ==> |FIELD_NAMES[i]| == lengths[i] && FIELD_NAMES[i][0] == firsts[i];
    assert FIELD_NAMES[0][1] == 101 && FIELD_NAMES[4][1] == 112;
  }

  lemma {:induction false} NamedFieldsHold(values: seq<Value>, n: nat)
    requires n <= |values| == 12
    ensures forall i :: 0 <= i < n ==> FIELD_NAMES[i] in NamedFields(values, n) &&
                                       NamedFields(values, n)[FIELD_NAMES[i]] == values[i]
    ensures forall k :: k in NamedFields(values, n) ==> exists i :: 0 <= i < n && FIELD_NAMES[i] == k
  {
    NamesApart();
    if n > 0 {
      NamedFieldsHold(values, n - 1);
      forall k | k in NamedFields(values, n)
        ensures exists i :: 0 <= i < n && FIELD_NAMES[i] == k
      {
        if k in NamedFields(values, n - 1) {
          var i :| 0 <= i < n - 1 && FIELD_NAMES[i] == k;
        } else {
          assert FIELD_NAMES[n - 1] == k;
        }
      }
    }
  }

  /** The field at a position, from the expanded object. */
  ghost predicate FieldsNamed(values: seq<Value>, fields: map<Text, Value>) {
    && |values| == 12
    && (forall i :: 0 <= i < 12 ==> FIELD_NAMES[i] in fields && fields[FIELD_NAMES[i]] == values[i])
    && (forall k :: k in fields ==> exists i :: 0 <= i < 12 && FIELD_NAMES[i] == k)
  }

  lemma NamedSpanIs(values: seq<Value>, out: Value)
    requires |values| == 12
    ensures out == NamedSpan(values) <==> out.Object? && FieldsNamed(values, out.fields)
  {
    hide NamedFields;
    NamesApart();
    NamedFieldsHold(values, 12);
    if out.Object? && FieldsNamed(values, out.fields) {
      forall k
        ensures k in out.fields <==> k in NamedFields(values, 12)
        ensures k in out.fields ==> out.fields[k] == NamedFields(values, 12)[k]
      {
        if k in out.fields {
          var i :| 0 <= i < 12 && FIELD_NAMES[i] == k;
        }
        if k in NamedFields(values, 12) {
          var i :| 0 <= i < 12 && FIELD_NAMES[i] == k;
        }
      }
      assert out.fields == NamedFields(values, 12);
    }
  }

  lemma KeysAre(fields: map<Text, Value>)
    ensures (forall k :: k in fields <==> exists i :: 0 <= i < 12 && FIELD_NAMES[i] == k) <==>
            fields.Keys == {Ascii("service"), Ascii("name"), Ascii("resource"), Ascii("trace_id"), Ascii("span_id"),
                            Ascii("parent_id"), Ascii("start"), Ascii("duration"), Ascii("error"), Ascii("meta"),
                            Ascii("metrics"), Ascii("type")}
  {
    hide Ascii;
    Names();
    var names := FIELD_NAMES;
    var all := {names[0], names[1], names[2], names[3], names[4], names[5], names[6], names[7], names[8], names[9],
                names[10], names[11]};
    assert forall k :: k in all <==> exists i :: 0 <= i < 12 && names[i] == k;
  }

  lemma FieldIff(dict: seq<Text>, i: nat, v: Value, out: Value)
    requires i < 12
    ensures DenotesField(dict, i, v, out) <==>
            if i == 0 || i == 1 || i == 2 || i == 11 then Looked(dict, v, out)
            else if i == 9 then v.Object? && out.Object? && MapExpands(dict, v.fields, true, out.fields)
            else if i == 10 then v.Object? && out.Object? && MapExpands(dict, v.fields, false, out.fields)
            else out == v
  {
    hide DenotesMap, MapExpands;
    if (i == 9 || i == 10) && v.Object? && out.Object? {
      MapIff(dict, v.fields, i == 9, out.fields);
    }
  }

  function ValuesOf(out: Value): (values: seq<Value>)
    ensures |values| == 12
  {
    seq(12, i requires 0 <= i < 12 => ValueAt(out, i))
  }

  function ValueAt(out: Value, i: nat): Value
    requires i < 12
  {
    if out.Object? && FIELD_NAMES[i] in out.fields then out.fields[FIELD_NAMES[i]] else Null
  }

  /** A span is expanded exactly to the twelve fields under their names. */
  lemma SpanIff(dict: seq<Text>, span: Value, out: Value)
    ensures SpanExpands(dict, span, out) <==>
            exists values :: DenotesSpan(dict, span, values) && |values| == 12 && out == NamedSpan(values)
  {
    hide SpanExpands, DenotesSpan, NamedSpan;
    if values :| DenotesSpan(dict, span, values) && |values| == 12 && out == NamedSpan(values) {
      SpanNamed(dict, span, values);
    }
    if SpanExpands(dict, span, out) {
      SpanDenoted(dict, span, out);
    }
  }

  lemma SpanNamed(dict: seq<Text>, span: Value, values: seq<Value>)
    requires DenotesSpan(dict, span, values)
    ensures SpanExpands(dict, span, NamedSpan(values))
  {
    hide NamedFields, DenotesField, Ascii, Looked;
    NamedSpanIs(values, NamedSpan(values));
    FieldsAsDenoted(dict, span, values, NamedSpan(values));
  }

  lemma SpanDenoted(dict: seq<Text>, span: Value, out: Value)
    requires SpanExpands(dict, span, out)
    ensures DenotesSpan(dict, span, ValuesOf(out)) && out == NamedSpan(ValuesOf(out))
  {
    hide MapExpands, DenotesSpan, NamedSpan, Ascii, Looked;
    KeysAre(out.fields);
    DenotedAsFields(dict, span, ValuesOf(out), out);
    NamedSpanIs(ValuesOf(out), out);
  }

  lemma FieldsAsDenoted(dict: seq<Text>, span: Value, values: seq<Value>, out: Value)
    requires DenotesSpan(dict, span, values) && out.Object? && FieldsNamed(values, out.fields)
    ensures SpanExpands(dict, span, out)
  {
    hide MapExpands, DenotesField, Ascii, Looked;
    Names();
    KeysAre(out.fields);
    forall i: nat | i < 12
      ensures DenotesField(dict, i, span.items[i], values[i])
    {
    }
    FieldIff(dict, 0, span.items[0], values[0]);
    FieldIff(dict, 1, span.items[1], values[1]);
    FieldIff(dict, 2, span.items[2], values[2]);
    FieldIff(dict, 3, span.items[3], values[3]);
    FieldIff(dict, 4, span.items[4], values[4]);
    FieldIff(dict, 5, span.items[5], values[5]);
    FieldIff(dict, 6, span.items[6], values[6]);
    FieldIff(dict, 7, span.items[7], values[7]);
    FieldIff(dict, 8, span.items[8], values[8]);
    FieldIff(dict, 9, span.items[9], values[9]);
    FieldIff(dict, 10, span.items[10], values[10]);
    FieldIff(dict, 11, span.items[11], values[11]);
  }

  lemma DenotedAsFields(dict: seq<Text>, span: Value, values: seq<Value>, out: Value)
    requires SpanExpands(dict, span, out) && |values| == 12
    requires forall i :: 0 <= i < 12 ==> FIELD_NAMES[i] in out.fields && values[i] == out.fields[FIELD_NAMES[i]]
    ensures DenotesSpan(dict, span, values)
  {
    hide MapExpands, DenotesField, Ascii, Looked;
    Names();
    FieldIff(dict, 0, span.items[0], values[0]);
    FieldIff(dict, 1, span.items[1], values[1]);
    FieldIff(dict, 2, span.items[2], values[2]);
    FieldIff(dict, 3, span.items[3], values[3]);
    FieldIff(dict, 4, span.items[4], values[4]);
    FieldIff(dict, 5, span.items[5], values[5]);
    FieldIff(dict, 6, span.items[6], values[6]);
    FieldIff(dict, 7, span.items[7], values[7]);
    FieldIff(dict, 8, span.items[8], values[8]);
    FieldIff(dict, 9, span.items[9], values[9]);
    FieldIff(dict, 10, span.items[10], values[10]);
    FieldIff(dict, 11, span.items[11], values[11]);
    forall i | 0 <= i < 12
      ensures DenotesField(dict, i, span.items[i], values[i])
    {
    }
  }

  // ---- Payloads ----

  ghost predicate TraceExpands(dict: seq<Text>, trace: Value, out: Value) {
    && trace.Array? && out.Array? && |out.items| == |trace.items|
    && forall j :: 0 <= j < |out.items| ==> SpanExpands(dict, trace.items[j], out.items[j])
  }

  /** A pair of a dictionary of strings and traces, expanded span by span. */
  ghost predicate ExpandsTo(payload: Value, out: Value) {
    && payload.Array? && |payload.items| == 2 && payload.items[0].Array? && payload.items[1].Array?
    && (forall i :: 0 <= i < |payload.items[0].items| ==> payload.items[0].items[i].Str?)
    && out.Array? && |out.items| == |payload.items[1].items|
    && var dict := Texts(payload.items[0].items);
       forall i :: 0 <= i < |out.items| ==> TraceExpands(dict, payload.items[1].items[i], out.items[i])
  }

  function Texts(items: seq<Value>): seq<Text>
    requires forall i :: 0 <= i < |items| ==> items[i].Str?
  {
    seq(|items|, i requires 0 <= i < |items| => items[i].text)
  }

  function TraceValues(out: Value): (spans: seq<seq<Value>>)
    ensures forall j :: 0 <= j < |spans| ==> |spans[j]| == 12
  {
    if out.Array? then seq(|out.items|, j requires 0 <= j < |out.items| => ValuesOf(out.items[j])) else []
  }

  function PayloadValues(out: Value): (traces: seq<seq<seq<Value>>>)
    ensures forall i, j :: 0 <= i < |traces| && 0 <= j < |traces[i]| ==> |traces[i][j]| == 12
  {
    if out.Array? then seq(|out.items|, i requires 0 <= i < |out.items| => TraceValues(out.items[i])) else []
  }

  lemma TraceNamed(dict: seq<Text>, trace: Value, spans: seq<seq<Value>>)
    requires DenotesTrace(dict, trace, spans) && forall j :: 0 <= j < |spans| ==> |spans[j]| == 12
    ensures TraceExpands(dict, trace, NamedTrace(spans))
  {
    hide SpanExpands, DenotesSpan, NamedSpan;
    forall j | 0 <= j < |spans|
      ensures SpanExpands(dict, trace.items[j], NamedSpan(spans[j]))
    {
      SpanNamed(dict, trace.items[j], spans[j]);
    }
  }

  lemma TraceDenoted(dict: seq<Text>, trace: Value, out: Value)
    requires TraceExpands(dict, trace, out)
    ensures DenotesTrace(dict, trace, TraceValues(out)) && NamedTrace(TraceValues(out)) == out
  {
    hide SpanExpands, DenotesSpan, NamedSpan, ValuesOf;
    var spans := TraceValues(out);
    forall j | 0 <= j < |spans|
      ensures DenotesSpan(dict, trace.items[j], spans[j]) && NamedSpan(spans[j]) == out.items[j]
    {
      SpanDenoted(dict, trace.items[j], out.items[j]);
    }
    assert NamedTrace(spans).items == out.items;
  }

  /** What the expansion returns, in literal names and positions. */
  lemma PayloadIff(payload: Value, out: Value)
    ensures (exists traces :: NamesTraces(payload, traces, out)) <==> ExpandsTo(payload, out)
  {
    hide TraceExpands, DenotesTrace, NamedTrace, TraceValues;
    if traces :| NamesTraces(payload, traces, out) {
      var dict := Texts(payload.items[0].items);
      assert dict == Dictionary(payload.items[0].items);
      forall i | 0 <= i < |out.items|
        ensures TraceExpands(dict, payload.items[1].items[i], out.items[i])
      {
        TraceNamed(dict, payload.items[1].items[i], traces[i]);
      }
    }
    if ExpandsTo(payload, out) {
      PayloadDenoted(payload, out);
    }
  }

  lemma PayloadDenoted(payload: Value, out: Value)
    requires ExpandsTo(payload, out)
    ensures NamesTraces(payload, PayloadValues(out), out)
  {
    hide TraceExpands, DenotesTrace, NamedTrace, TraceValues;
    var dict, traces := Texts(payload.items[0].items), PayloadValues(out);
    assert dict == Dictionary(payload.items[0].items);
    forall i | 0 <= i < |traces|
      ensures DenotesTrace(dict, payload.items[1].items[i], traces[i]) && NamedTrace(traces[i]) == out.items[i]
    {
      TraceDenoted(dict, payload.items[1].items[i], out.items[i]);
    }
    assert DenotesPayload(payload, traces);
    DenotedSpansHaveTwelveFields(payload, traces);
    assert NamedTraces(traces).items == out.items;
  }

  // ---- What the strings cost ----

  /** A string of the result costs its bytes and one value. */
  function TextCost(v: Value, valueSize: nat): nat {
    if v.Str? then |v.text| + valueSize else 0
  }

  ghost function MapTexts(out: map<Text, Value>, metadata: bool, valueSize: nat): nat
    decreases |out|
  {
    if out == map[] then 0
    else
      var name :| name in out;
      |name| + valueSize + (if metadata then TextCost(out[name], valueSize) else 0) +
        MapTexts(out - {name}, metadata, valueSize)
  }

  ghost predicate SpanShaped(out: Value) {
    && out.Object?
    && {Ascii("service"), Ascii("name"), Ascii("resource"), Ascii("type"), Ascii("meta"), Ascii("metrics")} <=
       out.fields.Keys
    && out.fields[Ascii("meta")].Object? && out.fields[Ascii("metrics")].Object?
  }

  /** Of a span's strings, those that come from the dictionary. */
  ghost function SpanTexts(out: Value, valueSize: nat): nat {
    if !SpanShaped(out) then 0
    else
      TextCost(out.fields[Ascii("service")], valueSize) + TextCost(out.fields[Ascii("name")], valueSize) +
      TextCost(out.fields[Ascii("resource")], valueSize) + TextCost(out.fields[Ascii("type")], valueSize) +
      MapTexts(out.fields[Ascii("meta")].fields, true, valueSize) +
      MapTexts(out.fields[Ascii("metrics")].fields, false, valueSize)
  }

  ghost function TraceTexts(spans: seq<Value>, valueSize: nat): nat {
    if spans == [] then 0
    else TraceTexts(spans[..|spans| - 1], valueSize) + SpanTexts(spans[|spans| - 1], valueSize)
  }

  ghost function PayloadTexts(traces: seq<Value>, valueSize: nat): nat {
    if traces == [] then 0
    else
      var last := traces[|traces| - 1];
      PayloadTexts(traces[..|traces| - 1], valueSize) + if last.Array? then TraceTexts(last.items, valueSize) else 0
  }

  lemma NothingToExpand(dict: seq<Text>, fields: map<Text, Value>, metadata: bool, valueSize: nat)
    requires MapExpands(dict, fields, metadata, map[])
    ensures MapCost(dict, fields, metadata, valueSize) == MapTexts(map[], metadata, valueSize) == 0
  {
    hide KeyExpands, EntryExpands;
    var none: map<Text, Value> := map[];
    assert forall k :: k in fields ==> exists name :: KeyExpands(dict, k, name) && name in none;
    assert fields == map[];
  }

  lemma FirstText(out: map<Text, Value>, metadata: bool, valueSize: nat) returns (name: Text)
    requires out != map[]
    ensures name in out
    ensures MapTexts(out, metadata, valueSize) ==
            |name| + valueSize + (if metadata then TextCost(out[name], valueSize) else 0) +
              MapTexts(out - {name}, metadata, valueSize)
  {
    name :| name in out && MapTexts(out, metadata, valueSize) ==
                           |name| + valueSize + (if metadata then TextCost(out[name], valueSize) else 0) +
                             MapTexts(out - {name}, metadata, valueSize);
  }

  lemma KeyOf(dict: seq<Text>, fields: map<Text, Value>, metadata: bool, out: map<Text, Value>, name: Text)
    returns (k: Text)
    requires MapExpands(dict, fields, metadata, out) && name in out
    ensures k in fields && KeyExpands(dict, k, name) && EntryExpands(dict, fields[k], metadata, out[name])
  {
    hide KeyExpands, EntryExpands;
    k :| k in fields && KeyExpands(dict, k, name);
  }

  lemma SmallerMap(out: map<Text, Value>, name: Text)
    requires name in out
    ensures |out - {name}| < |out|
  {
    assert |(out - {name}).Keys| < |out.Keys| by {
      assert (out - {name}).Keys == out.Keys - {name};
    }
  }

  lemma {:induction false} MapCostIsTexts(dict: seq<Text>, fields: map<Text, Value>, metadata: bool,
                                          out: map<Text, Value>, valueSize: nat)
    requires MapExpands(dict, fields, metadata, out)
    ensures MapCost(dict, fields, metadata, valueSize) == MapTexts(out, metadata, valueSize)
    decreases |out|
  {
    hide MapExpands, KeyExpands, EntryCost, EntryExpands, TextCost, MapCost, MapTexts;
    if out == map[] {
      NothingToExpand(dict, fields, metadata, valueSize);
    } else {
      var name := FirstText(out, metadata, valueSize);
      var k := KeyOf(dict, fields, metadata, out, name);
      MapCostWithout(dict, fields, metadata, valueSize, k);
      EntryCostIsTexts(dict, k, name, fields[k], metadata, out[name], valueSize);
      MapExpandsWithout(dict, fields, metadata, out, k, name);
      SmallerMap(out, name);
      MapCostIsTexts(dict, fields - {k}, metadata, out - {name}, valueSize);
    }
  }

  lemma EntryCostIsTexts(dict: seq<Text>, k: Text, name: Text, v: Value, metadata: bool, out: Value, valueSize: nat)
    requires KeyExpands(dict, k, name) && EntryExpands(dict, v, metadata, out)
    ensures EntryCost(dict, k, v, metadata, valueSize) ==
            |name| + valueSize + if metadata then TextCost(out, valueSize) else 0
  {
    hide KeyIndex, IndexKeyIs;
    var n: nat :| n < |dict| && dict[n] == name && IndexKeyIs(k, n);
    KeyIndexIff(k, n);
  }

  lemma MapExpandsWithout(dict: seq<Text>, fields: map<Text, Value>, metadata: bool, out: map<Text, Value>, k: Text,
                          name: Text)
    requires MapExpands(dict, fields, metadata, out) && k in fields && KeyExpands(dict, k, name)
    ensures MapExpands(dict, fields - {k}, metadata, out - {name})
  {
    hide KeyExpands, EntryExpands;
    forall l, other | l in fields && l != k && KeyExpands(dict, l, other)
      ensures other != name
    {
    }
    KeyExpandsOne(dict, k);
  }

  lemma KeyExpandsOne(dict: seq<Text>, k: Text)
    ensures forall a, b :: KeyExpands(dict, k, a) && KeyExpands(dict, k, b) ==> a == b
  {
    hide IndexKeyIs;
    forall a, b | KeyExpands(dict, k, a) && KeyExpands(dict, k, b)
      ensures a == b
    {
      var m: nat :| m < |dict| && dict[m] == a && IndexKeyIs(k, m);
      var n: nat :| n < |dict| && dict[n] == b && IndexKeyIs(k, n);
      KeyIndexIff(k, m);
      KeyIndexIff(k, n);
    }
  }

  lemma FieldAdds(dict: seq<Text>, items: seq<Value>, n: nat, valueSize: nat)
    requires n < |items| == 12 && items[9].Object? && items[10].Object?
    ensures FieldsCost(dict, items[..n + 1], valueSize) == FieldsCost(dict, items[..n], valueSize) +
            if n == 0 || n == 1 || n == 2 || n == 11 then IndexCost(dict, items[n], valueSize)
            else if n == 9 then MapCost(dict, items[9].fields, true, valueSize)
            else if n == 10 then MapCost(dict, items[10].fields, false, valueSize)
            else 0
  {
    hide IndexCost, MapCost;
    assert items[..n + 1][..n] == items[..n];
  }

  lemma TwelveCosts(dict: seq<Text>, items: seq<Value>, valueSize: nat)
    requires |items| == 12 && items[9].Object? && items[10].Object?
    ensures FieldsCost(dict, items, valueSize) ==
            IndexCost(dict, items[0], valueSize) + IndexCost(dict, items[1], valueSize) +
            IndexCost(dict, items[2], valueSize) + IndexCost(dict, items[11], valueSize) +
            MapCost(dict, items[9].fields, true, valueSize) + MapCost(dict, items[10].fields, false, valueSize)
  {
    hide FieldsCost, IndexCost, MapCost;
    NoFieldsCost(dict, items[..0], valueSize);
    FieldAdds(dict, items, 0, valueSize);
    FieldAdds(dict, items, 1, valueSize);
    FieldAdds(dict, items, 2, valueSize);
    FieldAdds(dict, items, 3, valueSize);
    FieldAdds(dict, items, 4, valueSize);
    FieldAdds(dict, items, 5, valueSize);
    FieldAdds(dict, items, 6, valueSize);
    FieldAdds(dict, items, 7, valueSize);
    FieldAdds(dict, items, 8, valueSize);
    FieldAdds(dict, items, 9, valueSize);
    FieldAdds(dict, items, 10, valueSize);
    FieldAdds(dict, items, 11, valueSize);
    assert items[..12] == items;
  }

  lemma NoFieldsCost(dict: seq<Text>, items: seq<Value>, valueSize: nat)
    requires items == []
    ensures FieldsCost(dict, items, valueSize) == 0
  {
  }

  /** The expansion of a span is charged the strings of the result. */
  lemma SpanCostIsTexts(dict: seq<Text>, span: Value, out: Value, valueSize: nat)
    requires SpanExpands(dict, span, out)
    ensures span.Array? && FieldsCost(dict, span.items, valueSize) == SpanTexts(out, valueSize)
  {
    hide MapExpands, FieldsCost, MapCost, MapTexts, Ascii;
    TwelveCosts(dict, span.items, valueSize);
    MapCostIsTexts(dict, span.items[9].fields, true, out.fields[Ascii("meta")].fields, valueSize);
    MapCostIsTexts(dict, span.items[10].fields, false, out.fields[Ascii("metrics")].fields, valueSize);
  }

  lemma {:induction false} SpansCostIsTexts(dict: seq<Text>, spans: seq<Value>, out: seq<Value>, valueSize: nat)
    requires |spans| == |out| && forall j :: 0 <= j < |out| ==> SpanExpands(dict, spans[j], out[j])
    ensures SpansCost(dict, spans, valueSize) == TraceTexts(out, valueSize)
  {
    hide SpanExpands, SpanTexts, FieldsCost;
    if out != [] {
      var n := |out| - 1;
      SpansCostIsTexts(dict, spans[..n], out[..n], valueSize);
      SpanCostIsTexts(dict, spans[n], out[n], valueSize);
    }
  }

  lemma {:induction false} TracesCostIsTexts(dict: seq<Text>, traces: seq<Value>, out: seq<Value>, valueSize: nat)
    requires |traces| == |out| && forall i :: 0 <= i < |out| ==> TraceExpands(dict, traces[i], out[i])
    ensures TracesCost(dict, traces, valueSize) == PayloadTexts(out, valueSize)
  {
    hide SpanExpands, SpansCost, TraceTexts;
    if out != [] {
      var n := |out| - 1;
      TracesCostIsTexts(dict, traces[..n], out[..n], valueSize);
      SpansCostIsTexts(dict, traces[n].items, out[n].items, valueSize);
    }
  }

  /** The byte limit of the expansion is spent on the strings that the result took from the
      dictionary, each with one value. */
  lemma ExpansionCost(payload: Value, out: Value, valueSize: nat)
    requires ExpandsTo(payload, out)
    ensures out.Array? && PayloadCost(payload, valueSize) == PayloadTexts(out.items, valueSize)
  {
    hide TraceExpands, TracesCost, PayloadTexts;
    var dict := Texts(payload.items[0].items);
    assert dict == Dictionary(payload.items[0].items);
    TracesCostIsTexts(dict, payload.items[1].items, out.items, valueSize);
  }

  // ---- From bytes ----

  ghost predicate Returns(f: Frame, decoded: Option<Value>, traces: Value) {
    decoded.Some? &&
    if f.indexed then
      ExpandsTo(decoded.value, traces) && traces.Array? && PayloadTexts(traces.items, f.valueSize) <= f.binaryBudget
    else decoded.value == traces
  }

  /** A v0.5 payload is accepted exactly when its bytes are one item that expands, with the
      strings of the result within the byte limit; in the v0.4 layout the item is the traces. */
  lemma CarriesIff(f: Frame, nodes: nat, traces: Value)
    ensures DatadogPayload.Carries(f, nodes, traces) <==>
            exists item :: Reads(f, nodes, item) && Returns(f, Meaning(item, f.indexed, 0, false), traces)
  {
    hide Reads, Meaning, DatadogPayload.Yields, Returns;
    forall item
      ensures DatadogPayload.Yields(f, Meaning(item, f.indexed, 0, false), traces) <==>
              Returns(f, Meaning(item, f.indexed, 0, false), traces)
    {
      YieldsMeaningIff(f, Meaning(item, f.indexed, 0, false), traces);
    }
  }

  lemma YieldsMeaningIff(f: Frame, decoded: Option<Value>, traces: Value)
    ensures DatadogPayload.Yields(f, decoded, traces) <==> Returns(f, decoded, traces)
  {
    if decoded.Some? {
      YieldsIff(f, decoded.value, traces);
    }
  }

  lemma YieldsIff(f: Frame, payload: Value, traces: Value)
    ensures DatadogPayload.Yields(f, Some(payload), traces) <==> Returns(f, Some(payload), traces)
  {
    hide ExpandsTo, PayloadTexts, PayloadCost, NamesTraces;
    PayloadIff(payload, traces);
    if f.indexed && ExpandsTo(payload, traces) {
      ExpansionCost(payload, traces, f.valueSize);
    }
  }
}
