/** Decoding a legal encoding of a value gives the value back. */
module MessagePackRoundTrip {
  import opened Wrappers
  import opened MessagePack
  import opened DecoderBudget
  import opened MessagePackDecoder

  /** The item is an encoding of the value, in any of the legal widths: integers by
      their value, text by its bytes, arrays item by item, objects entry by entry
      in any order with distinct keys. */
  ghost predicate Represents(w: Item, v: Value)
    decreases w
  {
    match w
    case PosFix(n) => v == Int(n)
    case NegFix(n) => v == Int(n)
    case Nil => v == Null
    case False => v == Bool(false)
    case True => v == Bool(true)
    case UInt(_, n) => v == Int(n)
    case SInt(_, n) => v == Int(n)
    case F32(bits) => v == Float(false, bits) && Finite32(bits)
    case F64(bits) => v == Float(true, bits) && Finite64(bits)
    case Txt(_, text) => v == Str(text) && ValidUtf8(text)
    case Arr(_, items) =>
      v.Array? && |v.items| == |items| && forall i :: 0 <= i < |items| ==> Represents(items[i], v.items[i])
    case Map(_, items) =>
      v.Object? && |items| % 2 == 0 && DistinctKeys(items) &&
      (forall k :: k in v.fields <==> exists i: nat :: HasKey(items, i, k)) &&
      forall i: nat, k :: HasKey(items, i, k) && k in v.fields ==> Represents(items[2 * i + 1], v.fields[k])
    case Bin(_, _) => false
  }

  ghost predicate HasKey(ws: seq<Item>, i: nat, k: Text) {
    2 * i + 1 < |ws| && ws[2 * i].Txt? && ws[2 * i].text == k
  }

  ghost predicate DistinctKeys(ws: seq<Item>) {
    && (forall i: nat :: 2 * i + 1 < |ws| ==> ws[2 * i].Txt? && ValidUtf8(ws[2 * i].text))
    && (forall i: nat, j: nat, k :: HasKey(ws, i, k) && HasKey(ws, j, k) ==> i == j)
  }

  lemma {:induction false} RepresentedMeaning(w: Item, v: Value, depth: nat, repeated: bool)
    requires Represents(w, v)
    ensures Meaning(w, false, depth, repeated) == Some(v)
    decreases w, 1
  {
    if w.Arr? {
      RepresentedItems(w, w.items, v.items, depth);
    } else if w.Map? {
      RepresentedEntries(w, w.items, v.fields, depth, repeated);
    }
  }

  lemma {:induction false} RepresentedItems(w: Item, ws: seq<Item>, vs: seq<Value>, depth: nat)
    requires w.Arr? && ws <= w.items && |vs| == |ws|
    requires forall i :: 0 <= i < |ws| ==> Represents(ws[i], vs[i])
    ensures MeaningAll(ws, false, depth) == Some(vs)
    decreases w, 0, |ws|
  {
    if ws != [] {
      var n := |ws| - 1;
      RepresentedItems(w, ws[..n], vs[..n], depth);
      assert ws[n] == w.items[n];
      RepresentedMeaning(ws[n], vs[n], depth + 1, false);
      assert vs == vs[..n] + [vs[n]];
    }
  }

  /** The entries, with distinct keys, represent the fields and no others. */
  ghost predicate EntriesStand(ws: seq<Item>, fields: map<Text, Value>) {
    && |ws| % 2 == 0 && DistinctKeys(ws)
    && (forall k :: k in fields <==> exists i: nat :: HasKey(ws, i, k))
    && forall i: nat, k :: HasKey(ws, i, k) && k in fields ==> Represents(ws[2 * i + 1], fields[k])
  }

  lemma {:induction false} RepresentedEntries(w: Item, ws: seq<Item>, fields: map<Text, Value>, depth: nat,
                                              repeated: bool)
    requires w.Map? && ws <= w.items && EntriesStand(ws, fields)
    ensures MeaningMap(ws, false, depth, repeated) == Some(fields)
    decreases w, 0, |ws|
  {
    hide EntriesStand, Represents, Meaning, MeaningMap, KeyText, Legal, LegalAll, Encode, EncodeAll, Height, HeightAll;
    if |ws| < 2 {
      NoEntry(ws, fields, depth, repeated);
    } else {
      var init, key, last := ws[..|ws| - 2], ws[|ws| - 2], ws[|ws| - 1];
      var k, rest := LastEntry(ws, fields);
      RepresentedEntries(w, init, rest, depth, repeated);
      assert last == w.items[|ws| - 1];
      RepresentedMeaning(last, fields[k], depth + 1, IsMeta(false, depth, k));
      assert ws == init + [key, last];
      EntryFacts(init, key, last, false, depth, repeated);
    }
  }

  lemma NoEntry(ws: seq<Item>, fields: map<Text, Value>, depth: nat, repeated: bool)
    requires |ws| < 2 && EntriesStand(ws, fields)
    ensures MeaningMap(ws, false, depth, repeated) == Some(fields)
  {
    assert fields == map[];
  }

  lemma LastEntry(ws: seq<Item>, fields: map<Text, Value>) returns (k: Text, rest: map<Text, Value>)
    requires |ws| >= 2 && EntriesStand(ws, fields)
    ensures |ws| % 2 == 0 && KeyText(ws[|ws| - 2], false) == Some(k)
    ensures k in fields && Represents(ws[|ws| - 1], fields[k])
    ensures k !in rest && rest[k := fields[k]] == fields && EntriesStand(ws[..|ws| - 2], rest)
  {
    var n := |ws| / 2 - 1;
    assert 2 * n == |ws| - 2 && ws[2 * n].Txt?;
    k := ws[2 * n].text;
    rest := fields - {k};
    assert HasKey(ws, n, k);
    ShorterEntries(ws, fields, k, rest, n);
  }

  lemma ShorterEntries(ws: seq<Item>, fields: map<Text, Value>, key: Text, rest: map<Text, Value>, n: nat)
    requires EntriesStand(ws, fields) && |ws| == 2 * n + 2 && HasKey(ws, n, key) && rest == fields - {key}
    ensures EntriesStand(ws[..2 * n], rest)
  {
    hide Represents, ValidUtf8;
    var init := ws[..2 * n];
    forall i: nat, k
      ensures HasKey(init, i, k) <==> HasKey(ws, i, k) && i < n
    {
    }
    forall k
      ensures k in rest <==> exists i: nat :: HasKey(init, i, k)
    {
      if k in rest {
        var i: nat :| HasKey(ws, i, k);
        assert HasKey(init, i, k);
      }
      if i: nat :| HasKey(init, i, k) {
        assert HasKey(ws, i, k);
      }
    }
    forall i: nat | 2 * i + 1 < |init|
      ensures init[2 * i].Txt? && ValidUtf8(init[2 * i].text)
    {
      assert init[2 * i] == ws[2 * i];
    }
  }

  /** Enough room in every budget, within the depth limit. */
  ghost predicate WithinBudgets(f: Frame, nodes: nat, w: Item) {
    && Height(w) <= MAX_DEPTH && Nodes(w) <= nodes && BinBytes(w) <= f.binaryBudget
    && Allocated(f, BinBytes(w), Binaries(w, f.indexed, if f.indexed then Other else Root)) <= f.allocationBudget
  }

  /** Whatever widths an encoding uses, a payload that consists of it reads back as
      the value it represents, and as nothing else. */
  lemma RoundTrip(f: Frame, nodes: nat, w: Item, v: Value)
    requires !f.indexed && Legal(w) && Represents(w, v) && WithinBudgets(f, nodes, w) && f.bytes == Encode(w)
    ensures Reads(f, nodes, w) && Meaning(w, false, 0, false) == Some(v)
    ensures forall other :: Reads(f, nodes, other) ==> other == w
  {
    hide Represents, Allocated, Encode, Meaning, Legal;
    RepresentedMeaning(w, v, 0, false);
    assert f.bytes[0..|f.bytes|] == f.bytes;
    assert After(f, Snapshot(0, nodes, f.binaryBudget, NO_BINARY), w, Root).binaries == Binaries(w, false, Root) by {
      ThenAssociative(Binaries(w, false, Root), NO_BINARY, NO_BINARY);
    }
    assert Reads(f, nodes, w);
    forall other | Reads(f, nodes, other)
      ensures other == w
    {
      OneReading(f, nodes, other, w);
    }
  }
}
