/** The budgets of one decoding run, and what an item does to them. */
module DecoderBudget {
  import opened Basics
  import opened Wrappers
  import opened MessagePack

  const USIZE_MAX: nat := 0xFFFF_FFFF_FFFF_FFFF

  /** What stays fixed during a run: the payload, the key mode, the sizes of a
      retained value and of the two provenance entries, and the two byte budgets. */
  datatype Frame = Frame(
    bytes: seq<Byte>,
    indexed: bool,
    valueSize: nat,
    fieldSize: nat,
    spanSize: nat,
    binaryBudget: nat,
    allocationBudget: nat)
  {
    ghost predicate Sane() {
      fieldSize >= 2 && spanSize >= 2 && allocationBudget <= USIZE_MAX
    }
  }

  // ---- Provenance vectors ----

  /** Capacity after n pushes into an empty vector that doubles when full. */
  function Capacity(n: nat): (c: nat)
    ensures c >= n
    ensures n > 0 ==> c > 0
  {
    if n == 0 then 0
    else
      var c := Capacity(n - 1);
      if n <= c then c else if 2 * c > 1 then 2 * c else 1
  }

  /** All capacities ever allocated on the way, added up. */
  function Growth(n: nat): nat {
    if n == 0 then 0 else Growth(n - 1) + if n <= Capacity(n - 1) then 0 else Capacity(n)
  }

  /** Charging every reallocation covers the vector that is finally retained. */
  lemma {:induction false} GrowthCoversCapacity(n: nat)
    ensures Growth(n) >= Capacity(n)
  {
    if n > 0 {
      GrowthCoversCapacity(n - 1);
    }
  }

  lemma {:induction false} GrowthMonotone(m: nat, n: nat)
    requires m <= n
    ensures Growth(m) <= Growth(n)
    decreases n - m
  {
    if m < n {
      GrowthMonotone(m, n - 1);
    }
  }

  function KeyBytes(fields: seq<(nat, nat, Text)>): nat {
    if fields == [] then 0 else KeyBytes(fields[..|fields| - 1]) + |fields[|fields| - 1].2|
  }

  lemma {:induction false} KeyBytesMonotone(a: seq<(nat, nat, Text)>, b: seq<(nat, nat, Text)>)
    ensures KeyBytes(a) <= KeyBytes(a + b)
    decreases |b|
  {
    if b == [] {
      assert a + b == a;
    } else {
      KeyBytesMonotone(a, b[..|b| - 1]);
      assert (a + b)[..|a + b| - 1] == a + b[..|b| - 1];
    }
  }

  lemma {:induction false} TimesIsProduct(n: int, size: nat)
    ensures Times(n, size) == n * size
  {
    if size > 0 {
      TimesIsProduct(n, size - 1);
    }
  }

  lemma {:induction false} TimesMonotone(a: int, b: int, size: nat)
    requires a <= b
    ensures Times(a, size) <= Times(b, size)
  {
    if size > 0 {
      TimesMonotone(a, b, size - 1);
    }
  }

  lemma {:induction false} TimesAdd(a: int, b: int, size: nat)
    ensures Times(a + b, size) == Times(a, size) + Times(b, size)
  {
    if size > 0 {
      TimesAdd(a, b, size - 1);
    }
  }

  /** Bytes charged for binary data and for the record of where it was. */
  function Allocated(f: Frame, binary: int, p: Provenance): int {
    Times(binary, f.valueSize) + KeyBytes(p.fields) + Times(Growth(|p.fields|), f.fieldSize) +
      Times(Growth(|p.spans|), f.spanSize)
  }

  lemma AllocatedMonotone(f: Frame, a: int, b: int, p: Provenance, q: Provenance)
    requires a <= b
    ensures Allocated(f, a, p) <= Allocated(f, b, p.Then(q))
  {
    KeyBytesMonotone(p.fields, q.fields);
    GrowthMonotone(|p.fields|, |p.fields + q.fields|);
    GrowthMonotone(|p.spans|, |p.spans + q.spans|);
    TimesMonotone(a, b, f.valueSize);
    TimesMonotone(Growth(|p.fields|), Growth(|p.fields + q.fields|), f.fieldSize);
    TimesMonotone(Growth(|p.spans|), Growth(|p.spans + q.spans|), f.spanSize);
  }

  /** Charged bytes cover the capacity of both provenance vectors. */
  lemma AllocatedCoversCapacity(f: Frame, binary: nat, p: Provenance)
    ensures Allocated(f, binary, p) >=
            binary * f.valueSize + Capacity(|p.fields|) * f.fieldSize + Capacity(|p.spans|) * f.spanSize +
              KeyBytes(p.fields)
  {
    GrowthCoversCapacity(|p.fields|);
    GrowthCoversCapacity(|p.spans|);
    TimesIsProduct(binary, f.valueSize);
    TimesIsProduct(Capacity(|p.fields|), f.fieldSize);
    TimesIsProduct(Capacity(|p.spans|), f.spanSize);
    TimesMonotone(Capacity(|p.fields|), Growth(|p.fields|), f.fieldSize);
    TimesMonotone(Capacity(|p.spans|), Growth(|p.spans|), f.spanSize);
  }

  // ---- Effects ----

  /** The cursor and the budgets at one moment of a run. */
  datatype Snapshot = Snapshot(pos: int, remaining: int, binaryRemaining: int, binaries: Provenance)

  ghost function After(f: Frame, s: Snapshot, w: Item, ctx: Context): Snapshot
    requires Legal(w)
  {
    Snapshot(s.pos + |Encode(w)|, s.remaining - Nodes(w), s.binaryRemaining - BinBytes(w),
             s.binaries.Then(Binaries(w, f.indexed, ctx)))
  }

  ghost function AfterAll(s: Snapshot, ws: seq<Item>, p: Provenance): Snapshot
    requires LegalAll(ws)
  {
    Snapshot(s.pos + |EncodeAll(ws)|, s.remaining - NodesAll(ws), s.binaryRemaining - BinBytesAll(ws),
      s.binaries.Then(p))
  }

  ghost predicate Affordable(f: Frame, s: Snapshot) {
    && s.remaining >= 0 && s.binaryRemaining >= 0
    && Allocated(f, f.binaryBudget - s.binaryRemaining, s.binaries) <= f.allocationBudget
  }

  ghost predicate Starts(bytes: seq<Byte>, pos: int, e: seq<Byte>) {
    0 <= pos && pos + |e| <= |bytes| && bytes[pos..pos + |e|] == e
  }

  /** The item lies at the cursor, is meaningful at this depth, and can be afforded. */
  ghost predicate Fits(f: Frame, s: Snapshot, w: Item, ctx: Context, depth: nat, repeated: bool) {
    && Legal(w) && Meaning(w, f.indexed, depth, repeated).Some?
    && depth + Height(w) <= MAX_DEPTH
    && Affordable(f, After(f, s, w, ctx))
    && Starts(f.bytes, s.pos, Encode(w))
  }

  ghost predicate FitsArray(f: Frame, s: Snapshot, ws: seq<Item>, ctx: Context, depth: nat) {
    && LegalAll(ws) && MeaningAll(ws, f.indexed, depth).Some?
    && (ws == [] || depth + 1 + HeightAll(ws) <= MAX_DEPTH)
    && Affordable(f, AfterAll(s, ws, BinariesAll(ws, f.indexed, ctx)))
    && Starts(f.bytes, s.pos, EncodeAll(ws))
  }

  ghost predicate FitsMap(f: Frame, s: Snapshot, ws: seq<Item>, ctx: Context, depth: nat, repeated: bool) {
    && |ws| % 2 == 0
    && LegalAll(ws) && MeaningMap(ws, f.indexed, depth, repeated).Some?
    && (ws == [] || depth + 1 + HeightAll(ws) <= MAX_DEPTH)
    && Affordable(f, AfterAll(s, ws, BinariesMap(ws, f.indexed, ctx)))
    && Starts(f.bytes, s.pos, EncodeAll(ws))
  }

  lemma StartsSplit(bytes: seq<Byte>, pos: int, a: seq<Byte>, b: seq<Byte>)
    ensures Starts(bytes, pos, a + b) <==> Starts(bytes, pos, a) && Starts(bytes, pos + |a|, b)
  {
    var n, m := |a|, |b|;
    if 0 <= pos && pos + n + m <= |bytes| {
      assert bytes[pos..pos + n + m] == bytes[pos..pos + n] + bytes[pos + n..pos + n + m];
      if bytes[pos..pos + n + m] == a + b {
        assert bytes[pos..pos + n] == (a + b)[..n] == a;
        assert bytes[pos + n..pos + n + m] == (a + b)[n..] == b;
      }
    }
  }

  /** What can be afforded later can be afforded earlier. */
  lemma AffordableEarlier(f: Frame, t: Snapshot, u: Snapshot, q: Provenance)
    requires Affordable(f, u)
    requires u.remaining <= t.remaining && u.binaryRemaining <= t.binaryRemaining && u.binaries == t.binaries.Then(q)
    ensures Affordable(f, t)
  {
    AllocatedMonotone(f, f.binaryBudget - t.binaryRemaining, f.binaryBudget - u.binaryRemaining, t.binaries, q);
  }

  lemma ThenAssociative(a: Provenance, b: Provenance, c: Provenance)
    ensures a.Then(b).Then(c) == a.Then(b.Then(c))
    ensures a.Then(NO_BINARY) == a && NO_BINARY.Then(a) == a
  {
  }

  /** The state after a prefix and then one more item is the state after both. */
  lemma AfterAppend(f: Frame, s: Snapshot, ws: seq<Item>, p: Provenance, w: Item, ctx: Context)
    requires LegalAll(ws) && Legal(w)
    ensures LegalAll(ws + [w])
    ensures After(f, AfterAll(s, ws, p), w, ctx) == AfterAll(s, ws + [w], p.Then(Binaries(w, f.indexed, ctx)))
  {
    Concat(ws, [w]);
    One(w);
    ThenAssociative(s.binaries, p, Binaries(w, f.indexed, ctx));
  }

  // ---- Arrays, one item at a time ----

  lemma {:induction false} ArrayPrefixFits(f: Frame, s: Snapshot, ws: seq<Item>, ctx: Context, depth: nat, n: nat)
    requires FitsArray(f, s, ws, ctx, depth) && n <= |ws|
    ensures FitsArray(f, s, ws[..n], ctx, depth)
    decreases |ws|
  {
    if n == |ws| {
      assert ws[..n] == ws;
    } else {
      ArrayInitFits(f, s, ws, ctx, depth);
      ArrayPrefixFits(f, s, ws[..|ws| - 1], ctx, depth, n);
      assert ws[..|ws| - 1][..n] == ws[..n];
    }
  }

  ghost function ArrayState(f: Frame, s: Snapshot, ws: seq<Item>, ctx: Context): Snapshot
    requires LegalAll(ws)
  {
    AfterAll(s, ws, BinariesAll(ws, f.indexed, ctx))
  }

  lemma ArrayStateStep(f: Frame, s: Snapshot, init: seq<Item>, last: Item, ctx: Context)
    requires LegalAll(init) && Legal(last)
    ensures LegalAll(init + [last])
    ensures ArrayState(f, s, init + [last], ctx) == After(f, ArrayState(f, s, init, ctx), last, ctx.ArrayChild(|init|))
  {
    assert (init + [last])[..|init|] == init;
    AfterAppend(f, s, init, BinariesAll(init, f.indexed, ctx), last, ctx.ArrayChild(|init|));
  }

  lemma ArrayInitFits(f: Frame, s: Snapshot, ws: seq<Item>, ctx: Context, depth: nat)
    requires FitsArray(f, s, ws, ctx, depth) && ws != []
    ensures FitsArray(f, s, ws[..|ws| - 1], ctx, depth)
  {
    var init, last := ws[..|ws| - 1], ws[|ws| - 1];
    assert ws == init + [last];
    ArrayStateStep(f, s, init, last, ctx);
    AffordableEarlier(f, ArrayState(f, s, init, ctx), ArrayState(f, s, ws, ctx),
      Binaries(last, f.indexed, ctx.ArrayChild(|init|)));
    StartsSplit(f.bytes, s.pos, EncodeAll(init), Encode(last));
  }

  lemma SnocFacts(init: seq<Item>, last: Item, indexed: bool, depth: nat)
    ensures LegalAll(init + [last]) <==> LegalAll(init) && Legal(last)
    ensures LegalAll(init + [last]) ==> EncodeAll(init + [last]) == EncodeAll(init) + Encode(last)
    ensures HeightAll(init + [last]) == Max(HeightAll(init), Height(last))
    ensures MeaningAll(init + [last], indexed, depth).Some? <==>
            MeaningAll(init, indexed, depth).Some? && Meaning(last, indexed, depth + 1, false).Some?
    ensures MeaningAll(init + [last], indexed, depth).Some? ==>
              MeaningAll(init + [last], indexed, depth).value ==
              MeaningAll(init, indexed, depth).value + [Meaning(last, indexed, depth + 1, false).value]
  {
    assert (init + [last])[..|init|] == init;
  }

  lemma ArrayStarts(f: Frame, s: Snapshot, init: seq<Item>, last: Item)
    requires LegalAll(init) && Legal(last) && LegalAll(init + [last])
    ensures Starts(f.bytes, s.pos, EncodeAll(init + [last])) <==>
            Starts(f.bytes, s.pos, EncodeAll(init)) && Starts(f.bytes, s.pos + |EncodeAll(init)|, Encode(last))
  {
    hide Encode, EncodeAll, Legal, LegalAll;
    SnocFacts(init, last, f.indexed, 0);
    StartsSplit(f.bytes, s.pos, EncodeAll(init), Encode(last));
  }

  /** The last item fits where the items before it leave off ... */
  lemma ArrayLastFits(f: Frame, s: Snapshot, init: seq<Item>, last: Item, ctx: Context, depth: nat)
    requires FitsArray(f, s, init + [last], ctx, depth) && LegalAll(init)
    ensures Fits(f, ArrayState(f, s, init, ctx), last, ctx.ArrayChild(|init|), depth + 1, false)
  {
    hide Encode, EncodeAll, Legal, LegalAll, Meaning, MeaningAll, Height, Affordable, Starts, Binaries, BinariesAll;
    SnocFacts(init, last, f.indexed, depth);
    ArrayStateStep(f, s, init, last, ctx);
    ArrayStarts(f, s, init, last);
  }

  /** ... and conversely. */
  lemma ArrayGrows(f: Frame, s: Snapshot, init: seq<Item>, last: Item, ctx: Context, depth: nat)
    requires FitsArray(f, s, init, ctx, depth)
    requires Fits(f, ArrayState(f, s, init, ctx), last, ctx.ArrayChild(|init|), depth + 1, false)
    ensures FitsArray(f, s, init + [last], ctx, depth)
  {
    hide Encode, EncodeAll, Legal, LegalAll, Meaning, MeaningAll, Height, Affordable, Starts, Binaries, BinariesAll;
    SnocFacts(init, last, f.indexed, depth);
    ArrayStateStep(f, s, init, last, ctx);
    ArrayStarts(f, s, init, last);
  }

  // ---- Maps, one entry at a time ----

  lemma KeyHasNoBinary(w: Item, indexed: bool, ctx: Context)
    requires KeyText(w, indexed).Some?
    ensures Binaries(w, indexed, ctx) == NO_BINARY && BinBytes(w) == 0
  {
  }

  lemma KeyMeans(w: Item, indexed: bool, depth: nat)
    requires Legal(w) && Meaning(w, indexed, depth, false).Some?
    ensures var v := Meaning(w, indexed, depth, false).value;
            KeyText(w, indexed) == match v
              case Str(text) => if !indexed then Some(text) else None
              case Int(n) => IndexKey(n, indexed)
              case _ => None
  {
  }

  lemma KeyIsMeaningful(w: Item, indexed: bool, depth: nat)
    requires KeyText(w, indexed).Some?
    ensures Meaning(w, indexed, depth, false).Some? && Height(w) == 0
  {
  }

  ghost function MapState(f: Frame, s: Snapshot, ws: seq<Item>, ctx: Context): Snapshot
    requires LegalAll(ws)
  {
    AfterAll(s, ws, BinariesMap(ws, f.indexed, ctx))
  }

  ghost function EntryProvenance(f: Frame, key: Item, value: Item, ctx: Context): Provenance
    requires KeyText(key, f.indexed).Some?
  {
    Binaries(value, f.indexed, ctx.MapChild(KeyText(key, f.indexed).value))
  }

  lemma {:induction false} MapPrefixFits(f: Frame, s: Snapshot, ws: seq<Item>, ctx: Context, depth: nat, repeated: bool,
                                         n: nat)
    requires FitsMap(f, s, ws, ctx, depth, repeated) && |ws| % 2 == 0 && n % 2 == 0 && n <= |ws|
    ensures FitsMap(f, s, ws[..n], ctx, depth, repeated)
    decreases |ws|
  {
    hide FitsMap;
    if n == |ws| {
      assert ws[..n] == ws;
    } else {
      var init := ws[..|ws| - 2];
      assert ws == init + [ws[|ws| - 2], ws[|ws| - 1]];
      MapInitFits(f, s, init, ws[|ws| - 2], ws[|ws| - 1], ctx, depth, repeated);
      MapPrefixFits(f, s, init, ctx, depth, repeated, n);
      assert init[..n] == ws[..n];
    }
  }

  lemma Two(key: Item, value: Item)
    ensures LegalAll([key, value]) <==> Legal(key) && Legal(value)
    ensures Legal(key) && Legal(value) ==> EncodeAll([key, value]) == Encode(key) + Encode(value)
    ensures NodesAll([key, value]) == Nodes(key) + Nodes(value)
    ensures BinBytesAll([key, value]) == BinBytes(key) + BinBytes(value)
    ensures HeightAll([key, value]) == Max(Height(key), Height(value))
  {
    hide Encode, Legal, Nodes, Height, BinBytes;
    One(key);
    assert [key, value][..1] == [key];
  }

  lemma EntryFacts(init: seq<Item>, key: Item, value: Item, indexed: bool, depth: nat, repeated: bool)
    requires |init| % 2 == 0
    ensures LegalAll(init + [key, value]) <==> LegalAll(init) && Legal(key) && Legal(value)
    ensures LegalAll(init + [key, value]) ==>
            EncodeAll(init + [key, value]) == EncodeAll(init) + Encode(key) + Encode(value)
    ensures HeightAll(init + [key, value]) == Max(HeightAll(init), Max(Height(key), Height(value)))
    ensures MeaningMap(init + [key, value], indexed, depth, repeated) ==
            MapStep(MeaningMap(init, indexed, depth, repeated), key, value, indexed, depth, repeated)
  {
    SnocFacts(init, key, indexed, depth);
    SnocFacts(init + [key], value, indexed, depth);
    assert init + [key, value] == init + [key] + [value];
    assert (init + [key, value])[..|init|] == init;
  }

  /** One more entry in a map under construction. */
  function MapStep(init: Option<map<Text, Value>>, key: Item, value: Item, indexed: bool, depth: nat,
                   repeated: bool): Option<map<Text, Value>> {
    var k := KeyText(key, indexed);
    if init.None? || k.None? then None
    else
      var v := Meaning(value, indexed, depth + 1, IsMeta(indexed, depth, k.value));
      if v.None? then None else AddField(init.value, k.value, v.value, repeated)
  }

  lemma MapStarts(f: Frame, s: Snapshot, init: seq<Item>, key: Item, value: Item)
    requires |init| % 2 == 0 && LegalAll(init) && Legal(key) && Legal(value) && LegalAll(init + [key, value])
    ensures Starts(f.bytes, s.pos, EncodeAll(init + [key, value])) <==>
            && Starts(f.bytes, s.pos, EncodeAll(init))
            && Starts(f.bytes, s.pos + |EncodeAll(init)|, Encode(key))
            && Starts(f.bytes, s.pos + |EncodeAll(init)| + |Encode(key)|, Encode(value))
  {
    hide Encode, EncodeAll, Legal, LegalAll;
    EntryFacts(init, key, value, f.indexed, 0, false);
    StartsSplit(f.bytes, s.pos, EncodeAll(init) + Encode(key), Encode(value));
    StartsSplit(f.bytes, s.pos, EncodeAll(init), Encode(key));
  }

  /** The state between the key and the value of the entry after `init`. */
  ghost function KeyState(f: Frame, s: Snapshot, init: seq<Item>, key: Item, ctx: Context): Snapshot
    requires LegalAll(init) && Legal(key)
  {
    After(f, MapState(f, s, init, ctx), key, Other)
  }

  lemma MapAffordable(f: Frame, s: Snapshot, init: seq<Item>, key: Item, value: Item, ctx: Context)
    requires |init| % 2 == 0 && LegalAll(init) && Legal(key) && Legal(value) && KeyText(key, f.indexed).Some?
    requires LegalAll(init + [key, value]) && Affordable(f, MapState(f, s, init + [key, value], ctx))
    ensures var k := KeyText(key, f.indexed).value;
            Affordable(f, After(f, KeyState(f, s, init, key, ctx), value, ctx.MapChild(k)))
    ensures Affordable(f, KeyState(f, s, init, key, ctx))
    ensures Affordable(f, MapState(f, s, init, ctx))
  {
    MapStateStep(f, s, init, key, value, ctx);
    KeyAffordable(f, KeyState(f, s, init, key, ctx), value, ctx.MapChild(KeyText(key, f.indexed).value));
    KeyAffordable(f, MapState(f, s, init, ctx), key, Other);
  }

  lemma MapInitFits(f: Frame, s: Snapshot, init: seq<Item>, key: Item, value: Item, ctx: Context, depth: nat,
                    repeated: bool)
    requires |init| % 2 == 0 && FitsMap(f, s, init + [key, value], ctx, depth, repeated)
    ensures FitsMap(f, s, init, ctx, depth, repeated) && KeyText(key, f.indexed).Some? && Legal(key) && Legal(value)
  {
    hide Encode, EncodeAll, Legal, LegalAll, Meaning, MeaningMap, Height, Affordable, Starts, Binaries, BinariesMap;
    EntryFacts(init, key, value, f.indexed, depth, repeated);
    MapAffordable(f, s, init, key, value, ctx);
    MapStarts(f, s, init, key, value);
  }

  /** An entry fits where the entries before it leave off: its key, then its value,
      and the field can be added ... */
  lemma MapLastFits(f: Frame, s: Snapshot, init: seq<Item>, key: Item, value: Item, ctx: Context, depth: nat,
                    repeated: bool)
    requires |init| % 2 == 0 && FitsMap(f, s, init + [key, value], ctx, depth, repeated)
    requires LegalAll(init) && Legal(key) && Legal(value) && KeyText(key, f.indexed).Some?
    ensures Fits(f, MapState(f, s, init, ctx), key, Other, depth + 1, false)
    ensures var k := KeyText(key, f.indexed).value;
            Fits(f, KeyState(f, s, init, key, ctx), value, ctx.MapChild(k), depth + 1, IsMeta(f.indexed, depth, k))
    ensures MapStep(MeaningMap(init, f.indexed, depth, repeated), key, value, f.indexed, depth, repeated).Some?
  {
    hide Encode, EncodeAll, Legal, LegalAll, Meaning, MeaningMap, Height, Affordable, Starts, Binaries, BinariesMap;
    EntryFacts(init, key, value, f.indexed, depth, repeated);
    KeyIsMeaningful(key, f.indexed, depth + 1);
    MapAffordable(f, s, init, key, value, ctx);
    MapStarts(f, s, init, key, value);
  }

  /** ... and conversely. */
  lemma MapGrows(f: Frame, s: Snapshot, init: seq<Item>, key: Item, value: Item, ctx: Context, depth: nat,
                 repeated: bool)
    requires FitsMap(f, s, init, ctx, depth, repeated)
    requires Fits(f, MapState(f, s, init, ctx), key, Other, depth + 1, false) && KeyText(key, f.indexed).Some?
    requires var k := KeyText(key, f.indexed).value;
             Fits(f, KeyState(f, s, init, key, ctx), value, ctx.MapChild(k), depth + 1, IsMeta(f.indexed, depth, k))
    requires MapStep(MeaningMap(init, f.indexed, depth, repeated), key, value, f.indexed, depth, repeated).Some?
    ensures FitsMap(f, s, init + [key, value], ctx, depth, repeated)
  {
    hide Encode, EncodeAll, Legal, LegalAll, Meaning, MeaningMap, Height, Affordable, Starts, Binaries, BinariesMap;
    EntryFacts(init, key, value, f.indexed, depth, repeated);
    MapStateStep(f, s, init, key, value, ctx);
    MapStarts(f, s, init, key, value);
  }

  lemma MapStateStep(f: Frame, s: Snapshot, init: seq<Item>, key: Item, value: Item, ctx: Context)
    requires |init| % 2 == 0 && LegalAll(init) && Legal(key) && Legal(value) && KeyText(key, f.indexed).Some?
    ensures LegalAll(init + [key, value])
    ensures MapState(f, s, init + [key, value], ctx) ==
            After(f, After(f, MapState(f, s, init, ctx), key, Other), value,
              ctx.MapChild(KeyText(key, f.indexed).value))
  {
    hide Encode, Legal, Nodes, BinBytes, Binaries, EncodeAll, NodesAll, BinBytesAll, LegalAll, KeyText;
    var ws := init + [key, value];
    assert ws[..|ws| - 2] == init;
    Two(key, value);
    Concat(init, [key, value]);
    KeyHasNoBinary(key, f.indexed, Other);
    var p, q := BinariesMap(init, f.indexed, ctx), EntryProvenance(f, key, value, ctx);
    ThenAssociative(s.binaries, p, q);
    ThenAssociative(s.binaries.Then(p), NO_BINARY, NO_BINARY);
  }

  lemma KeyAffordable(f: Frame, t: Snapshot, value: Item, ctx: Context)
    requires Legal(value) && Affordable(f, After(f, t, value, ctx))
    ensures Affordable(f, t)
  {
    AffordableEarlier(f, t, After(f, t, value, ctx), Binaries(value, f.indexed, ctx));
  }
}
