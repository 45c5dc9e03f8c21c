/** How deep a decoded value nests, and when the depth limit is exceeded after all. */
module MessagePackDepth {
  import opened Wrappers
  import opened MessagePack
  import opened DecoderBudget
  import opened MessagePackDecoder

  /** Arrays and objects nest at most d levels below the value. */
  ghost predicate DepthAtMost(v: Value, d: nat)
    decreases d
  {
    match v
    case Array(items) => items == [] || (d > 0 && forall i :: 0 <= i < |items| ==> DepthAtMost(items[i], d - 1))
    case Object(fields) => fields == map[] || (d > 0 && forall k :: k in fields ==> DepthAtMost(fields[k], d - 1))
    case _ => true
  }

  /** Binary data that is not empty lies exactly k levels below the item. */
  ghost predicate BinaryAtLevel(w: Item, k: nat)
    decreases k, 0
  {
    match w
    case Bin(_, data) => k == 0 && data != []
    case Arr(_, items) => k > 0 && exists i :: 0 <= i < |items| && BinaryAtLevel(items[i], k - 1)
    case Map(_, items) => k > 0 && BinaryInEntries(items, k - 1)
    case _ => false
  }

  ghost predicate BinaryInEntries(ws: seq<Item>, k: nat)
    decreases k, 1
  {
    exists i: nat :: 2 * i + 1 < |ws| && BinaryAtLevel(ws[2 * i + 1], k)
  }

  lemma {:induction false} BinaryWithinHeight(w: Item, k: nat)
    requires BinaryAtLevel(w, k)
    ensures k <= Height(w)
    decreases k
  {
    if w.Arr? {
      var i :| 0 <= i < |w.items| && BinaryAtLevel(w.items[i], k - 1);
      BinaryWithinHeight(w.items[i], k - 1);
      HeightOfItem(w.items, i);
    } else if w.Map? {
      var i: nat :| 2 * i + 1 < |w.items| && BinaryAtLevel(w.items[2 * i + 1], k - 1);
      BinaryWithinHeight(w.items[2 * i + 1], k - 1);
      HeightOfItem(w.items, 2 * i + 1);
    }
  }

  lemma {:induction false} HeightOfItem(ws: seq<Item>, i: nat)
    requires i < |ws|
    ensures Height(ws[i]) <= HeightAll(ws)
    decreases |ws|
  {
    if i < |ws| - 1 {
      HeightOfItem(ws[..|ws| - 1], i);
    }
  }

  /** Within the depth its item has on the wire, a decoded value exceeds a bound exactly
      when binary data sits at the bound: its bytes become one level more. */
  lemma {:induction false} DepthExact(w: Item, indexed: bool, depth: nat, repeated: bool, d: nat)
    requires Legal(w) && Meaning(w, indexed, depth, repeated).Some? && Height(w) <= d
    ensures DepthAtMost(Meaning(w, indexed, depth, repeated).value, d) <==> !BinaryAtLevel(w, d)
    decreases w, 1
  {
    if w.Bin? {
      if w.data != [] {
        var bytes := Meaning(w, indexed, depth, repeated).value.items;
        assert bytes[0] == Int(w.data[0]);
      }
    } else if w.Arr? && w.items != [] {
      ItemsDepthExact(w.items, indexed, depth, d - 1);
    } else if w.Map? && w.items != [] {
      FieldsDepthExact(w.items, indexed, depth, repeated, d - 1);
      SomeField(w.items, indexed, depth, repeated);
    }
  }

  lemma {:induction false} ItemsDepthExact(ws: seq<Item>, indexed: bool, depth: nat, d: nat)
    requires LegalAll(ws) && MeaningAll(ws, indexed, depth).Some? && HeightAll(ws) <= d
    ensures forall i :: 0 <= i < |ws| ==>
              (DepthAtMost(MeaningAll(ws, indexed, depth).value[i], d) <==> !BinaryAtLevel(ws[i], d))
    decreases ws, 0
  {
    hide DepthAtMost, BinaryAtLevel, Meaning, Legal, Height;
    if ws != [] {
      ItemsDepthExact(ws[..|ws| - 1], indexed, depth, d);
      DepthExact(ws[|ws| - 1], indexed, depth + 1, false, d);
    }
  }

  lemma SomeField(ws: seq<Item>, indexed: bool, depth: nat, repeated: bool)
    requires MeaningMap(ws, indexed, depth, repeated).Some? && |ws| >= 2
    ensures MeaningMap(ws, indexed, depth, repeated).value != map[]
  {
    hide Meaning, KeyText;
    var key := KeyText(ws[|ws| - 2], indexed);
    assert key.value in MeaningMap(ws, indexed, depth, repeated).value;
  }

  ghost predicate FieldsWithin(fields: map<Text, Value>, d: nat) {
    forall k :: k in fields ==> DepthAtMost(fields[k], d)
  }

  lemma FieldsWithinGrows(fields: map<Text, Value>, key: Text, value: Value, repeated: bool, d: nat)
    requires AddField(fields, key, value, repeated).Some?
    ensures FieldsWithin(AddField(fields, key, value, repeated).value, d) <==>
            FieldsWithin(fields, d) && DepthAtMost(value, d)
  {
    var next := AddField(fields, key, value, repeated).value;
    if key !in fields {
      assert next[key] == value;
      assert forall k :: k in fields ==> k in next && next[k] == fields[k];
    }
  }

  lemma EntriesGrow(ws: seq<Item>, k: nat)
    requires |ws| >= 2 && |ws| % 2 == 0
    ensures BinaryInEntries(ws, k) <==> BinaryInEntries(ws[..|ws| - 2], k) || BinaryAtLevel(ws[|ws| - 1], k)
  {
    hide BinaryAtLevel;
    var init, n := ws[..|ws| - 2], |ws| / 2 - 1;
    assert 2 * n + 1 == |ws| - 1;
    if BinaryInEntries(init, k) {
      var i: nat :| 2 * i + 1 < |init| && BinaryAtLevel(init[2 * i + 1], k);
      assert BinaryAtLevel(ws[2 * i + 1], k);
    }
    if BinaryAtLevel(ws[|ws| - 1], k) {
      assert BinaryAtLevel(ws[2 * n + 1], k);
    }
    if BinaryInEntries(ws, k) {
      var i: nat :| 2 * i + 1 < |ws| && BinaryAtLevel(ws[2 * i + 1], k);
      assert i < n ==> BinaryAtLevel(init[2 * i + 1], k);
    }
  }

  lemma {:induction false} FieldsDepthExact(ws: seq<Item>, indexed: bool, depth: nat, repeated: bool, d: nat)
    requires LegalAll(ws) && |ws| % 2 == 0 && MeaningMap(ws, indexed, depth, repeated).Some? && HeightAll(ws) <= d
    ensures FieldsWithin(MeaningMap(ws, indexed, depth, repeated).value, d) <==> !BinaryInEntries(ws, d)
    decreases ws, 0
  {
    hide DepthAtMost, BinaryAtLevel, Meaning, KeyText, AddField, BinaryInEntries, FieldsWithin, Height, Legal, LegalAll;
    if |ws| < 2 {
      NoEntries(d);
    } else {
      var init, key, last := ws[..|ws| - 2], ws[|ws| - 2], ws[|ws| - 1];
      EntryHeights(ws);
      FieldsDepthExact(init, indexed, depth, repeated, d);
      var name := KeyText(key, indexed).value;
      var value := Meaning(last, indexed, depth + 1, IsMeta(indexed, depth, name));
      DepthExact(last, indexed, depth + 1, IsMeta(indexed, depth, name), d);
      FieldsWithinGrows(MeaningMap(init, indexed, depth, repeated).value, name, value.value, repeated, d);
      EntriesGrow(ws, d);
    }
  }

  lemma NoEntries(d: nat)
    ensures FieldsWithin(map[], d) && !BinaryInEntries([], d)
  {
  }

  lemma EntryHeights(ws: seq<Item>)
    requires |ws| >= 2 && LegalAll(ws)
    ensures HeightAll(ws[..|ws| - 2]) <= HeightAll(ws) && Height(ws[|ws| - 1]) <= HeightAll(ws)
    ensures LegalAll(ws[..|ws| - 2]) && Legal(ws[|ws| - 1])
  {
    hide Height, Legal;
    assert ws[..|ws| - 1][..|ws| - 2] == ws[..|ws| - 2];
  }

  /** A decoded payload nests at most 33 levels, and at most 32 exactly when no binary data
      lies 32 levels below the root. */
  lemma DecodedDepth(f: Frame, nodes: nat, w: Item)
    requires Reads(f, nodes, w)
    ensures DepthAtMost(Meaning(w, f.indexed, 0, false).value, MAX_DEPTH + 1)
    ensures DepthAtMost(Meaning(w, f.indexed, 0, false).value, MAX_DEPTH) <==> !BinaryAtLevel(w, MAX_DEPTH)
  {
    hide DepthAtMost, BinaryAtLevel, Meaning, Encode, Height, Allocated, Legal;
    DepthExact(w, f.indexed, 0, false, MAX_DEPTH);
    DepthExact(w, f.indexed, 0, false, MAX_DEPTH + 1);
    if BinaryAtLevel(w, MAX_DEPTH + 1) {
      BinaryWithinHeight(w, MAX_DEPTH + 1);
    }
  }

  // ---- A payload of 33 levels ----

  /** One binary byte inside k arrays. */
  function NestedByte(k: nat): Item {
    if k == 0 then Bin(1, [0]) else Arr(0, [NestedByte(k - 1)])
  }

  lemma OneItemArray(inner: Item, depth: nat, ctx: Context)
    requires Legal(inner) && Meaning(inner, false, depth + 1, false).Some?
    ensures Legal(Arr(0, [inner])) && Height(Arr(0, [inner])) == 1 + Height(inner)
    ensures Meaning(Arr(0, [inner]), false, depth, false).Some?
    ensures Nodes(Arr(0, [inner])) == 1 + Nodes(inner) && BinBytes(Arr(0, [inner])) == BinBytes(inner)
    ensures Binaries(Arr(0, [inner]), false, ctx) == Binaries(inner, false, ctx.ArrayChild(0))
  {
    One(inner);
    SnocFacts([], inner, false, depth);
    assert [] + [inner] == [inner] && [inner][..0] == [];
    assert MeaningAll([], false, depth) == Some([]);
    assert BinariesAll([], false, ctx) == NO_BINARY;
    assert BinariesAll([inner], false, ctx) == NO_BINARY.Then(Binaries(inner, false, ctx.ArrayChild(0)));
    ThenAssociative(Binaries(inner, false, ctx.ArrayChild(0)), NO_BINARY, NO_BINARY);
  }

  lemma {:induction false} NestedByteFacts(k: nat, depth: nat)
    ensures Legal(NestedByte(k)) && Height(NestedByte(k)) == k && Meaning(NestedByte(k), false, depth, false).Some?
    ensures Nodes(NestedByte(k)) == k + 1 && BinBytes(NestedByte(k)) == 1
    ensures Binaries(NestedByte(k), false, WithinSpan(0, 0)) == Provenance([], [(0, 0)], false)
    ensures BinaryAtLevel(NestedByte(k), k)
    decreases k
  {
    if k == 0 {
      Pow256Values();
    } else {
      NestedByteFacts(k - 1, depth + 1);
      OneItemArray(NestedByte(k - 1), depth, WithinSpan(0, 0));
      assert NestedByte(k).items[0] == NestedByte(k - 1);
    }
  }

  // Budgets of an ordinary intake of that payload.
  const DEEP_FRAME := Frame(Encode(DeepPayload()), false, 32, 40, 16, 1024 * 1024, 4 * 1024 * 1024)

  function DeepPayload(): (w: Item)
    ensures Legal(w)
  {
    NestedByteFacts(MAX_DEPTH, 0);
    NestedByte(MAX_DEPTH)
  }

  lemma DeepPayloadFacts()
    ensures var w := DeepPayload();
            && Height(w) == MAX_DEPTH && Meaning(w, false, 0, false).Some? && Nodes(w) == MAX_DEPTH + 1 &&
               BinBytes(w) == 1
            && Binaries(w, false, Root) == Provenance([], [(0, 0)], false) && BinaryAtLevel(w, MAX_DEPTH)
  {
    hide Legal, Height, Meaning, Nodes, BinBytes, Binaries, BinaryAtLevel;
    NestedByteFacts(MAX_DEPTH, 0);
    NestedByteFacts(MAX_DEPTH - 1, 1);
    NestedByteFacts(MAX_DEPTH - 2, 2);
    NestedByteFacts(MAX_DEPTH - 3, 3);
    assert NestedByte(MAX_DEPTH) == Arr(0, [NestedByte(MAX_DEPTH - 1)]);
    assert NestedByte(MAX_DEPTH - 1) == Arr(0, [NestedByte(MAX_DEPTH - 2)]);
    assert NestedByte(MAX_DEPTH - 2) == Arr(0, [NestedByte(MAX_DEPTH - 3)]);
    OneItemArray(NestedByte(MAX_DEPTH - 1), 0, Root);
    OneItemArray(NestedByte(MAX_DEPTH - 2), 1, Trace(0));
    OneItemArray(NestedByte(MAX_DEPTH - 3), 2, Span(0, 0));
  }

  /** The 33rd level is real: with ordinary budgets the decoder accepts a payload that
      decodes to 33 levels. */
  lemma BinaryAddsALevel()
    ensures DEEP_FRAME.Sane() && Reads(DEEP_FRAME, MAX_DEPTH + 1, DeepPayload())
    ensures !DepthAtMost(Meaning(DeepPayload(), false, 0, false).value, MAX_DEPTH)
  {
    hide DepthAtMost, BinaryAtLevel, Meaning, Encode, Height, Nodes, BinBytes, Binaries, Legal, DeepPayload;
    var w, f := DeepPayload(), DEEP_FRAME;
    DeepPayloadFacts();
    ThenAssociative(Binaries(w, false, Root), NO_BINARY, NO_BINARY);
    assert f.bytes[0..|f.bytes|] == f.bytes;
    OneSpanRecord(f);
    DecodedDepth(f, MAX_DEPTH + 1, w);
  }

  lemma OneSpanRecord(f: Frame)
    ensures Allocated(f, 1, Provenance([], [(0, 0)], false)) == f.valueSize + f.spanSize
  {
    TimesIsProduct(1, f.valueSize);
    TimesIsProduct(0, f.fieldSize);
    TimesIsProduct(1, f.spanSize);
    assert Growth(0) == 0 && Growth(1) == 1;
  }
}
