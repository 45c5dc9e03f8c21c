/** What the recorded coordinates of binary values say about the wire. */
module BinaryProvenance {
  import opened Basics
  import opened Wrappers
  import opened MessagePack

  datatype Step = Index(i: nat) | Key(k: Text)

  /** The wire holds a binary value at the end of the path of indexes and keys. */
  ghost predicate BinaryOnPath(w: Item, indexed: bool, path: seq<Step>)
    decreases |path|
  {
    if path == [] then w.Bin?
    else match path[0]
      case Index(i) => w.Arr? && i < |w.items| && BinaryOnPath(w.items[i], indexed, path[1..])
      case Key(k) => w.Map? && exists i ::
                     EntryWithKey(w.items, indexed, i, k) && BinaryOnPath(w.items[2 * i + 1], indexed, path[1..])
  }

  ghost predicate EntryWithKey(ws: seq<Item>, indexed: bool, i: nat, k: Text) {
    2 * i + 1 < |ws| && KeyText(ws[2 * i], indexed) == Some(k)
  }

  function StepInto(ctx: Context, step: Step): Context {
    match step
    case Index(i) => ctx.ArrayChild(i)
    case Key(k) => ctx.MapChild(k)
  }

  function ContextAt(ctx: Context, path: seq<Step>): Context
    decreases |path|
  {
    if path == [] then ctx else ContextAt(StepInto(ctx, path[0]), path[1..])
  }

  datatype Mark = Field(chunk: nat, span: nat, key: Text) | InSpan(chunk: nat, span: nat) | Container

  function MarkOf(ctx: Context): Mark {
    match ctx
    case MetaStructEntry(chunk, span, key) => Field(chunk, span, key)
    case Span(chunk, span) => InSpan(chunk, span)
    case MetaStruct(chunk, span) => InSpan(chunk, span)
    case WithinSpan(chunk, span) => InSpan(chunk, span)
    case _ => Container
  }

  ghost predicate Holds(p: Provenance, m: Mark) {
    match m
    case Field(chunk, span, key) => (chunk, span, key) in p.fields
    case InSpan(chunk, span) => (chunk, span) in p.spans
    case Container => p.container
  }

  ghost predicate MarkedByPath(w: Item, indexed: bool, ctx: Context, m: Mark) {
    exists path :: BinaryOnPath(w, indexed, path) && MarkOf(ContextAt(ctx, path)) == m
  }

  // ---- Children ----

  ghost predicate ItemHolds(ws: seq<Item>, indexed: bool, ctx: Context, m: Mark, i: nat) {
    i < |ws| && Holds(Binaries(ws[i], indexed, ctx.ArrayChild(i)), m)
  }

  lemma HoldsInThen(p: Provenance, q: Provenance, m: Mark)
    ensures Holds(p.Then(q), m) <==> Holds(p, m) || Holds(q, m)
  {
  }

  lemma {:induction false} HoldsInArray(ws: seq<Item>, indexed: bool, ctx: Context, m: Mark)
    ensures Holds(BinariesAll(ws, indexed, ctx), m) <==> exists i :: ItemHolds(ws, indexed, ctx, m, i)
    decreases |ws|
  {
    hide Binaries, Holds;
    if ws == [] {
      NothingHolds(m);
    } else {
      var init, n := ws[..|ws| - 1], |ws| - 1;
      HoldsInArray(init, indexed, ctx, m);
      var last := Binaries(ws[n], indexed, ctx.ArrayChild(n));
      HoldsInThen(BinariesAll(init, indexed, ctx), last, m);
      forall i: nat
        ensures ItemHolds(ws, indexed, ctx, m, i) <==> ItemHolds(init, indexed, ctx, m, i) || (i == n && Holds(last, m))
      {
      }
      if i :| ItemHolds(init, indexed, ctx, m, i) {
        assert ItemHolds(ws, indexed, ctx, m, i);
      }
      if Holds(last, m) {
        assert ItemHolds(ws, indexed, ctx, m, n);
      }
    }
  }

  lemma NothingHolds(m: Mark)
    ensures !Holds(NO_BINARY, m)
  {
  }

  ghost predicate EntryHolds(ws: seq<Item>, indexed: bool, ctx: Context, m: Mark, i: nat) {
    2 * i + 1 < |ws| && KeyText(ws[2 * i], indexed).Some? &&
    Holds(Binaries(ws[2 * i + 1], indexed, ctx.MapChild(KeyText(ws[2 * i], indexed).value)), m)
  }

  ghost predicate ReadableKeys(ws: seq<Item>, indexed: bool) {
    forall i: nat :: 2 * i + 1 < |ws| ==> KeyText(ws[2 * i], indexed).Some?
  }

  lemma {:induction false} HoldsInMap(ws: seq<Item>, indexed: bool, ctx: Context, m: Mark)
    requires |ws| % 2 == 0 && ReadableKeys(ws, indexed)
    ensures Holds(BinariesMap(ws, indexed, ctx), m) <==> exists i :: EntryHolds(ws, indexed, ctx, m, i)
    decreases |ws|
  {
    hide Binaries, Holds, KeyText;
    if ws == [] {
      NothingHolds(m);
    } else {
      var init, n := ws[..|ws| - 2], |ws| / 2 - 1;
      assert forall i: nat :: 2 * i + 1 < |init| ==> init[2 * i] == ws[2 * i];
      HoldsInMap(init, indexed, ctx, m);
      assert ws[2 * n] == ws[|ws| - 2] && ws[2 * n + 1] == ws[|ws| - 1];
      var last := Binaries(ws[|ws| - 1], indexed, ctx.MapChild(KeyText(ws[|ws| - 2], indexed).value));
      HoldsInThen(BinariesMap(init, indexed, ctx), last, m);
      forall i: nat
        ensures EntryHolds(ws, indexed, ctx, m, i) <==>
                EntryHolds(init, indexed, ctx, m, i) || (i == n && Holds(last, m))
      {
        if i < n {
          assert init[2 * i] == ws[2 * i] && init[2 * i + 1] == ws[2 * i + 1];
        }
      }
      if i :| EntryHolds(init, indexed, ctx, m, i) {
        assert EntryHolds(ws, indexed, ctx, m, i);
      }
      if Holds(last, m) {
        assert EntryHolds(ws, indexed, ctx, m, n);
      }
    }
  }

  lemma {:induction false} MeaningOfItems(ws: seq<Item>, indexed: bool, depth: nat, i: nat)
    requires MeaningAll(ws, indexed, depth).Some? && i < |ws|
    ensures Meaning(ws[i], indexed, depth + 1, false).Some?
    decreases |ws|
  {
    if i < |ws| - 1 {
      MeaningOfItems(ws[..|ws| - 1], indexed, depth, i);
    }
  }

  lemma {:induction false} MeaningOfEntries(ws: seq<Item>, indexed: bool, depth: nat, repeated: bool, i: nat)
    requires |ws| % 2 == 0 && MeaningMap(ws, indexed, depth, repeated).Some? && 2 * i + 1 < |ws|
    ensures KeyText(ws[2 * i], indexed).Some?
    ensures Meaning(ws[2 * i + 1], indexed, depth + 1, false).Some? ||
            Meaning(ws[2 * i + 1], indexed, depth + 1, true).Some?
    decreases |ws|
  {
    if 2 * i + 2 < |ws| {
      MeaningOfEntries(ws[..|ws| - 2], indexed, depth, repeated, i);
    }
  }

  /** Every recorded coordinate comes from a path, and every path is recorded. */
  lemma {:induction false} RecordsPaths(w: Item, indexed: bool, depth: nat, repeated: bool, ctx: Context, m: Mark)
    requires Legal(w) && Meaning(w, indexed, depth, repeated).Some?
    ensures Holds(Binaries(w, indexed, ctx), m) <==> MarkedByPath(w, indexed, ctx, m)
    decreases w
  {
    if w.Arr? {
      ArrayRecordsPaths(w, indexed, depth, ctx, m);
    } else if w.Map? {
      MapRecordsPaths(w, indexed, depth, repeated, ctx, m);
    } else {
      assert BinaryOnPath(w, indexed, []) <==> w.Bin?;
      assert ContextAt(ctx, []) == ctx;
      if MarkedByPath(w, indexed, ctx, m) {
        var path: seq<Step> :| BinaryOnPath(w, indexed, path) && MarkOf(ContextAt(ctx, path)) == m;
        assert path == [];
      }
    }
  }

  lemma {:induction false} ArrayRecordsPaths(w: Item, indexed: bool, depth: nat, ctx: Context, m: Mark)
    requires w.Arr? && LegalAll(w.items) && MeaningAll(w.items, indexed, depth).Some?
    ensures Holds(Binaries(w, indexed, ctx), m) <==> MarkedByPath(w, indexed, ctx, m)
    decreases w, 0
  {
    hide Binaries, BinariesAll, Meaning, MeaningAll, Legal, LegalAll, Holds, MarkedByPath;
    var ws := w.items;
    forall i: nat
      ensures ItemHolds(ws, indexed, ctx, m, i) <==> ItemMarked(ws, indexed, ctx, m, i)
    {
      if i < |ws| {
        MeaningOfItems(ws, indexed, depth, i);
        LegalItem(ws, i);
        RecordsPaths(ws[i], indexed, depth + 1, false, ctx.ArrayChild(i), m);
      }
    }
    HoldsInArray(ws, indexed, ctx, m);
    ArrayBinaries(w, indexed, ctx);
    if i :| ItemMarked(ws, indexed, ctx, m, i) {
      ItemPath(w, indexed, ctx, m, i);
    }
    if MarkedByPath(w, indexed, ctx, m) {
      var i := PathItem(w, indexed, ctx, m);
    }
  }

  lemma ArrayBinaries(w: Item, indexed: bool, ctx: Context)
    requires w.Arr?
    ensures Binaries(w, indexed, ctx) == BinariesAll(w.items, indexed, ctx)
  {
  }

  lemma MapBinaries(w: Item, indexed: bool, ctx: Context)
    requires w.Map?
    ensures Binaries(w, indexed, ctx) == BinariesMap(w.items, indexed, ctx)
  {
  }

  ghost predicate ItemMarked(ws: seq<Item>, indexed: bool, ctx: Context, m: Mark, i: nat) {
    i < |ws| && MarkedByPath(ws[i], indexed, ctx.ArrayChild(i), m)
  }

  lemma ItemPath(w: Item, indexed: bool, ctx: Context, m: Mark, i: nat)
    requires w.Arr? && ItemMarked(w.items, indexed, ctx, m, i)
    ensures MarkedByPath(w, indexed, ctx, m)
  {
    hide MarkOf;
    var rest :| BinaryOnPath(w.items[i], indexed, rest) && MarkOf(ContextAt(ctx.ArrayChild(i), rest)) == m;
    var path := [Index(i)] + rest;
    assert path[1..] == rest;
    assert BinaryOnPath(w, indexed, path) && MarkOf(ContextAt(ctx, path)) == m;
  }

  lemma PathItem(w: Item, indexed: bool, ctx: Context, m: Mark) returns (i: nat)
    requires w.Arr? && MarkedByPath(w, indexed, ctx, m)
    ensures ItemMarked(w.items, indexed, ctx, m, i)
  {
    hide MarkOf;
    var path: seq<Step> :| BinaryOnPath(w, indexed, path) && MarkOf(ContextAt(ctx, path)) == m;
    i := path[0].i;
    assert BinaryOnPath(w.items[i], indexed, path[1..]) && MarkOf(ContextAt(ctx.ArrayChild(i), path[1..])) == m;
  }

  ghost predicate EntryMarked(ws: seq<Item>, indexed: bool, ctx: Context, m: Mark, i: nat) {
    2 * i + 1 < |ws| && KeyText(ws[2 * i], indexed).Some? &&
    MarkedByPath(ws[2 * i + 1], indexed, ctx.MapChild(KeyText(ws[2 * i], indexed).value), m)
  }

  lemma {:induction false} MapRecordsPaths(w: Item, indexed: bool, depth: nat, repeated: bool, ctx: Context, m: Mark)
    requires w.Map? && |w.items| % 2 == 0 && LegalAll(w.items) && MeaningMap(w.items, indexed, depth, repeated).Some?
    ensures Holds(Binaries(w, indexed, ctx), m) <==> MarkedByPath(w, indexed, ctx, m)
    decreases w, 0
  {
    hide Binaries, BinariesMap, Meaning, MeaningMap, Legal, LegalAll, Holds, MarkedByPath, KeyText;
    var ws := w.items;
    forall i: nat
      ensures 2 * i + 1 < |ws| ==> KeyText(ws[2 * i], indexed).Some?
      ensures EntryHolds(ws, indexed, ctx, m, i) <==> EntryMarked(ws, indexed, ctx, m, i)
    {
      if 2 * i + 1 < |ws| {
        MeaningOfEntries(ws, indexed, depth, repeated, i);
        var r := Meaning(ws[2 * i + 1], indexed, depth + 1, true).Some?;
        LegalItem(ws, 2 * i + 1);
        RecordsPaths(ws[2 * i + 1], indexed, depth + 1, r, ctx.MapChild(KeyText(ws[2 * i], indexed).value), m);
      }
    }
    HoldsInMap(ws, indexed, ctx, m);
    MapBinaries(w, indexed, ctx);
    if i :| EntryMarked(ws, indexed, ctx, m, i) {
      EntryPath(w, indexed, ctx, m, i);
    }
    if MarkedByPath(w, indexed, ctx, m) {
      var i := PathEntry(w, indexed, ctx, m);
    }
  }

  lemma EntryPath(w: Item, indexed: bool, ctx: Context, m: Mark, i: nat)
    requires w.Map? && EntryMarked(w.items, indexed, ctx, m, i)
    ensures MarkedByPath(w, indexed, ctx, m)
  {
    var k := KeyText(w.items[2 * i], indexed).value;
    var rest :| BinaryOnPath(w.items[2 * i + 1], indexed, rest) && MarkOf(ContextAt(ctx.MapChild(k), rest)) == m;
    var path := [Key(k)] + rest;
    assert path[1..] == rest && EntryWithKey(w.items, indexed, i, k);
    assert BinaryOnPath(w, indexed, path) && MarkOf(ContextAt(ctx, path)) == m;
  }

  lemma PathEntry(w: Item, indexed: bool, ctx: Context, m: Mark) returns (i: nat)
    requires w.Map? && MarkedByPath(w, indexed, ctx, m)
    ensures EntryMarked(w.items, indexed, ctx, m, i)
  {
    var path: seq<Step> :| BinaryOnPath(w, indexed, path) && MarkOf(ContextAt(ctx, path)) == m;
    var k, rest := path[0].k, path[1..];
    i :| EntryWithKey(w.items, indexed, i, k) && BinaryOnPath(w.items[2 * i + 1], indexed, rest);
    assert MarkOf(ContextAt(ctx.MapChild(k), rest)) == m;
  }

  lemma {:induction false} LegalItem(ws: seq<Item>, i: nat)
    requires LegalAll(ws) && i < |ws|
    ensures Legal(ws[i])
    decreases |ws|
  {
    if i < |ws| - 1 {
      LegalItem(ws[..|ws| - 1], i);
    }
  }

  // ---- From the root of a payload ----

  ghost predicate InsideSpan(path: seq<Step>, chunk: nat, span: nat) {
    |path| >= 2 && path[0] == Index(chunk) && path[1] == Index(span)
  }

  ghost predicate OutsideSpans(path: seq<Step>) {
    |path| < 2 || path[0].Key? || path[1].Key?
  }

  ghost predicate IsMetaStructField(path: seq<Step>) {
    |path| == 4 && path[0].Index? && path[1].Index? && path[2] == Key(Ascii("meta_struct")) && path[3].Key?
  }

  lemma MetaStructName()
    ensures META_STRUCT == Ascii("meta_struct")
  {
  }

  lemma {:induction false} OtherStays(path: seq<Step>)
    ensures ContextAt(Other, path) == Other
    decreases |path|
  {
    if path != [] {
      OtherStays(path[1..]);
    }
  }

  lemma {:induction false} WithinStays(path: seq<Step>, chunk: nat, span: nat)
    ensures ContextAt(WithinSpan(chunk, span), path) == WithinSpan(chunk, span)
    decreases |path|
  {
    if path != [] {
      WithinStays(path[1..], chunk, span);
    }
  }

  lemma MarkFromRoot(path: seq<Step>)
    ensures IsMetaStructField(path) ==> MarkOf(ContextAt(Root, path)) == Field(path[0].i, path[1].i, path[3].k)
    ensures |path| >= 2 && path[0].Index? && path[1].Index? && !IsMetaStructField(path) ==>
              MarkOf(ContextAt(Root, path)) == InSpan(path[0].i, path[1].i)
    ensures !(|path| >= 2 && path[0].Index? && path[1].Index?) ==> MarkOf(ContextAt(Root, path)) == Container
  {
    hide Ascii;
    MetaStructName();
    if |path| >= 1 {
      assert ContextAt(Root, path) == ContextAt(StepInto(Root, path[0]), path[1..]);
      if path[0].Key? {
        OtherStays(path[1..]);
      } else if |path| >= 2 {
        var p := path[1..];
        assert ContextAt(Trace(path[0].i), p) == ContextAt(StepInto(Trace(path[0].i), p[0]), p[1..]);
        assert p[1..] == path[2..];
        if path[1].Key? {
          OtherStays(path[2..]);
        } else {
          MarkFromSpan(path[2..], path[0].i, path[1].i);
        }
      }
    }
  }

  lemma MarkFromSpan(p: seq<Step>, chunk: nat, span: nat)
    ensures |p| == 2 && p[0] == Key(META_STRUCT) && p[1].Key? ==>
              MarkOf(ContextAt(Span(chunk, span), p)) == Field(chunk, span, p[1].k)
    ensures !(|p| == 2 && p[0] == Key(META_STRUCT) && p[1].Key?) ==>
              MarkOf(ContextAt(Span(chunk, span), p)) == InSpan(chunk, span)
  {
    if |p| >= 1 {
      assert ContextAt(Span(chunk, span), p) == ContextAt(StepInto(Span(chunk, span), p[0]), p[1..]);
      if p[0] == Key(META_STRUCT) {
        if |p| >= 2 {
          var q := p[1..];
          assert ContextAt(MetaStruct(chunk, span), q) == ContextAt(StepInto(MetaStruct(chunk, span), q[0]), q[1..]);
          if |p| >= 3 {
            var r := q[1..];
            if q[0].Key? {
              assert ContextAt(MetaStructEntry(chunk, span, q[0].k), r) ==
                     ContextAt(StepInto(MetaStructEntry(chunk, span, q[0].k), r[0]), r[1..]);
              WithinStays(r[1..], chunk, span);
            } else {
              WithinStays(r, chunk, span);
            }
          }
        }
      } else {
        WithinStays(p[1..], chunk, span);
      }
    }
  }

  /** The recorded fields are exactly the binary values at
      traces[chunk][span].meta_struct[key]. */
  lemma FieldsAreExact(w: Item, chunk: nat, span: nat, key: Text)
    requires Legal(w) && Meaning(w, false, 0, false).Some?
    ensures (chunk, span, key) in Binaries(w, false, Root).fields <==>
            BinaryOnPath(w, false, [Index(chunk), Index(span), Key(Ascii("meta_struct")), Key(key)])
  {
    var m := Field(chunk, span, key);
    hide Ascii;
    MetaStructName();
    var field := [Index(chunk), Index(span), Key(META_STRUCT), Key(key)];
    RecordsPaths(w, false, 0, false, Root, m);
    MarkFromRoot(field);
    if MarkedByPath(w, false, Root, m) {
      var path: seq<Step> :| BinaryOnPath(w, false, path) && MarkOf(ContextAt(Root, path)) == m;
      MarkFromRoot(path);
      assert path == field;
    }
  }

  /** The invalid spans are exactly those with a binary value at or inside them that
      is no such field. */
  lemma InvalidSpansAreExact(w: Item, chunk: nat, span: nat)
    requires Legal(w) && Meaning(w, false, 0, false).Some?
    ensures (chunk, span) in Binaries(w, false, Root).spans <==>
            exists path :: BinaryOnPath(w, false, path) && InsideSpan(path, chunk, span) && !IsMetaStructField(path)
  {
    var m := InSpan(chunk, span);
    RecordsPaths(w, false, 0, false, Root, m);
    if MarkedByPath(w, false, Root, m) {
      var path: seq<Step> :| BinaryOnPath(w, false, path) && MarkOf(ContextAt(Root, path)) == m;
      MarkFromRoot(path);
    }
    if path: seq<Step> :| BinaryOnPath(w, false, path) && InsideSpan(path, chunk, span) && !IsMetaStructField(path) {
      MarkFromRoot(path);
    }
  }

  /** The container flag is set exactly when a binary value sits outside every span. */
  lemma ContainerFlagIsExact(w: Item)
    requires Legal(w) && Meaning(w, false, 0, false).Some?
    ensures Binaries(w, false, Root).container <==>
            exists path :: BinaryOnPath(w, false, path) && OutsideSpans(path)
  {
    RecordsPaths(w, false, 0, false, Root, Container);
    if MarkedByPath(w, false, Root, Container) {
      var path: seq<Step> :| BinaryOnPath(w, false, path) && MarkOf(ContextAt(Root, path)) == Container;
      MarkFromRoot(path);
    }
    if path: seq<Step> :| BinaryOnPath(w, false, path) && OutsideSpans(path) {
      MarkFromRoot(path);
    }
  }
}
