/** The MessagePack wire format the intake accepts, and what each wire item means. */
module MessagePack {
  import opened Basics
  import opened Wrappers

  // UTF-8 text as its bytes.
  type Text = seq<Byte>

  const MAX_DEPTH: nat := 32
  const META: Text := [109, 101, 116, 97]
  const META_STRUCT: Text := [109, 101, 116, 97, 95, 115, 116, 114, 117, 99, 116]
  // U+0001 followed by "index:".
  const INDEX_PREFIX: Text := [1, 105, 110, 100, 101, 120, 58]

  /** JSON values. A float is kept as its bits, since only its finiteness matters. */
  datatype Value =
    | Null
    | Bool(b: bool)
    | Int(n: int)
    | Float(wide: bool, bits: nat)
    | Str(text: Text)
    | Array(items: seq<Value>)
    | Object(fields: map<Text, Value>)

  /** One item on the wire. `width` is the number of length or payload bytes after
      the tag; 0 is the form whose tag carries the length. Map items alternate
      keys and values. */
  datatype Item =
    | PosFix(n: int)
    | NegFix(n: int)
    | Nil
    | False
    | True
    | UInt(width: nat, n: int)
    | SInt(width: nat, n: int)
    | F32(bits: nat)
    | F64(bits: nat)
    | Txt(width: nat, text: Text)
    | Arr(width: nat, items: seq<Item>)
    | Map(width: nat, items: seq<Item>)
    | Bin(width: nat, data: seq<Byte>)

  // ---- Integers on the wire ----

  function Pow256(k: nat): (p: int)
    ensures p >= 1
  {
    if k == 0 then 1 else 256 * Pow256(k - 1)
  }

  function BigEndian(n: int, k: nat): (r: seq<Byte>)
    requires 0 <= n < Pow256(k)
    ensures |r| == k
  {
    if k == 0 then [] else BigEndian(n / 256, k - 1) + [n % 256]
  }

  /** The decoder's fold over the bytes, most significant first. */
  function FromBytes(bs: seq<Byte>): (n: int)
    ensures 0 <= n < Pow256(|bs|)
  {
    if bs == [] then 0 else 256 * FromBytes(bs[..|bs| - 1]) + bs[|bs| - 1]
  }

  lemma {:induction false} FromBigEndian(n: int, k: nat)
    requires 0 <= n < Pow256(k)
    ensures FromBytes(BigEndian(n, k)) == n
  {
    if k > 0 {
      FromBigEndian(n / 256, k - 1);
      assert BigEndian(n, k)[..k - 1] == BigEndian(n / 256, k - 1);
    }
  }

  lemma {:induction false} ToBigEndian(bs: seq<Byte>)
    ensures BigEndian(FromBytes(bs), |bs|) == bs
    decreases |bs|
  {
    if bs != [] {
      ToBigEndian(bs[..|bs| - 1]);
    }
  }

  lemma Pow256Values()
    ensures Pow256(0) == 1 && Pow256(1) == 0x100 && Pow256(2) == 0x1_0000
    ensures Pow256(4) == 0x1_0000_0000 && Pow256(8) == 0x1_0000_0000_0000_0000
  {
    assert Pow256(3) == 0x100_0000;
    assert Pow256(5) == 0x100_0000_0000 && Pow256(6) == 0x1_0000_0000_0000 && Pow256(7) == 0x100_0000_0000_0000;
  }

  function Pow2(k: nat): (p: int)
    ensures p >= 1
  {
    if k == 0 then 1 else 2 * Pow2(k - 1)
  }

  /** The decoder's sign extension: shift left to 64 bits, reinterpret as signed,
      shift arithmetically back. */
  function SignExtend(v: int, width: nat): int
    requires 0 <= v < Pow256(width) && 1 <= width <= 8
  {
    ShiftBack(v, Pow2((8 - width) * 8))
  }

  function ShiftBack(v: int, shift: int): int
    requires shift > 0
  {
    var shifted := (v * shift) % 0x1_0000_0000_0000_0000;
    var signed := if shifted >= 0x8000_0000_0000_0000 then shifted - 0x1_0000_0000_0000_0000 else shifted;
    signed / shift
  }

  lemma Pow2Values()
    ensures Pow2(0) == 1 && Pow2(32) == 0x1_0000_0000 && Pow2(48) == 0x1_0000_0000_0000 &&
            Pow2(56) == 0x100_0000_0000_0000
  {
    assert Pow2(8) == 0x100;
    assert Pow2(16) == 0x1_0000;
    assert Pow2(24) == 0x100_0000;
    assert Pow2(32) == 0x1_0000_0000;
    assert Pow2(40) == 0x100_0000_0000;
    assert Pow2(48) == 0x1_0000_0000_0000;
  }

  lemma MulDiv(x: int, shift: int)
    requires shift > 0
    ensures x * shift / shift == x
  {
    var p := x * shift;
    var q, r := p / shift, p % shift;
    assert p == shift * q + r;
    MulMonotone(q, x, shift);
    MulMonotone(x, q, shift);
    NoMultiple(x - q, shift, r);
  }

  lemma NoMultiple(d: int, shift: int, r: int)
    requires d * shift == r && 0 <= r < shift
    ensures d == 0
  {
    if d >= 1 {
      MulMonotone(1, d, shift);
    } else if d <= -1 {
      MulMonotone(d, -1, shift);
    }
  }

  lemma MulMonotone(a: int, b: int, shift: int)
    requires shift > 0
    ensures a <= b ==> a * shift <= b * shift
    ensures a < b ==> a * shift < b * shift
    ensures (b - a) * shift == b * shift - a * shift
  {
  }

  lemma ShiftBackIsTwosComplement(v: int, shift: int, range: int)
    requires 0 <= v < range && shift > 0 && range * shift == 0x1_0000_0000_0000_0000
    ensures ShiftBack(v, shift) == if 2 * v >= range then v - range else v
  {
    MulMonotone(0, v, shift);
    MulMonotone(v, range, shift);
    var x := if 2 * v >= range then v - range else v;
    HalfRange(v, shift, range);
    MulDiv(x, shift);
    assert 2 * v >= range ==> x * shift == v * shift - 0x1_0000_0000_0000_0000 by {
      if 2 * v >= range {
        assert x == -(range - v);
        assert x * shift == -((range - v) * shift);
      }
    }
  }

  lemma HalfRange(v: int, shift: int, range: int)
    requires shift > 0
    ensures 2 * v >= range ==> 2 * (v * shift) >= range * shift
    ensures 2 * v < range ==> 2 * (v * shift) < range * shift
  {
    assert 2 * (v * shift) == (2 * v) * shift;
    if 2 * v >= range {
      MulMonotone(range, 2 * v, shift);
    } else {
      MulMonotone(2 * v, range, shift);
    }
  }

  /** Sign extension is two's complement at every width. */
  lemma SignExtendIsTwosComplement(v: int, width: nat)
    requires width in {1, 2, 4, 8} && 0 <= v < Pow256(width)
    ensures SignExtend(v, width) == if 2 * v >= Pow256(width) then v - Pow256(width) else v
  {
    Pow256Values();
    Pow2Values();
    ShiftBackIsTwosComplement(v, Pow2((8 - width) * 8), Pow256(width));
  }

  // ---- Text and floats ----

  predicate Continuation(b: Byte) {
    0x80 <= b <= 0xBF
  }

  /** Well-formed UTF-8 as in section 4 of RFC 3629. */
  predicate ValidUtf8(s: seq<Byte>) {
    if s == [] then true
    else if s[0] <= 0x7F then ValidUtf8(s[1..])
    else if 0xC2 <= s[0] <= 0xDF then |s| >= 2 && Continuation(s[1]) && ValidUtf8(s[2..])
    else if 0xE0 <= s[0] <= 0xEF then
      && |s| >= 3 && Continuation(s[1]) && Continuation(s[2])
      && (s[0] == 0xE0 ==> s[1] >= 0xA0)
      && (s[0] == 0xED ==> s[1] <= 0x9F)
      && ValidUtf8(s[3..])
    else if 0xF0 <= s[0] <= 0xF4 then
      && |s| >= 4 && Continuation(s[1]) && Continuation(s[2]) && Continuation(s[3])
      && (s[0] == 0xF0 ==> s[1] >= 0x90)
      && (s[0] == 0xF4 ==> s[1] <= 0x8F)
      && ValidUtf8(s[4..])
    else false
  }

  predicate Finite32(bits: nat) {
    bits / 0x80_0000 % 0x100 != 0xFF
  }

  predicate Finite64(bits: nat) {
    bits / 0x10_0000_0000_0000 % 0x800 != 0x7FF
  }

  // ---- Well-formed items and their bytes ----

  predicate LegalHead(w: Item) {
    match w
    case PosFix(n) => 0 <= n < 128
    case NegFix(n) => -32 <= n < 0
    case UInt(width, n) => width in {1, 2, 4, 8} && 0 <= n < Pow256(width)
    case SInt(width, n) => width in {1, 2, 4, 8} && -Pow256(width) <= 2 * n < Pow256(width)
    case F32(bits) => bits < Pow256(4)
    case F64(bits) => bits < Pow256(8)
    case Txt(width, text) => if width == 0 then |text| < 32 else width in {1, 2, 4} && |text| < Pow256(width)
    case Arr(width, items) => if width == 0 then |items| < 16 else width in {2, 4} && |items| < Pow256(width)
    case Map(width, items) =>
      |items| % 2 == 0 && if width == 0 then |items| / 2 < 16 else width in {2, 4} && |items| / 2 < Pow256(width)
    case Bin(width, data) => width in {1, 2, 4} && |data| < Pow256(width)
    case _ => true
  }

  predicate Legal(w: Item)
    decreases w, 1
  {
    LegalHead(w) && (w.Arr? || w.Map? ==> LegalAll(w.items))
  }

  predicate LegalAll(ws: seq<Item>)
    decreases ws, 0
  {
    ws == [] || (LegalAll(ws[..|ws| - 1]) && Legal(ws[|ws| - 1]))
  }

  // Tags whose low two bits select a width of 1, 2, 4 or 8 bytes.
  function WidthIndex(width: nat): int {
    if width == 1 then 0 else if width == 2 then 1 else if width == 4 then 2 else 3
  }

  /** The tag with its length or number bytes; the contents follow. */
  function Header(w: Item): (r: seq<Byte>)
    requires LegalHead(w)
    ensures |r| > 0
  {
    match w
    case PosFix(n) => [n]
    case NegFix(n) => [256 + n]
    case Nil => [0xC0]
    case False => [0xC2]
    case True => [0xC3]
    case UInt(width, n) => [0xCC + WidthIndex(width)] + BigEndian(n, width)
    case SInt(width, n) => [0xD0 + WidthIndex(width)] + BigEndian(if n < 0 then n + Pow256(width) else n, width)
    case F32(bits) => [0xCA] + BigEndian(bits, 4)
    case F64(bits) => [0xCB] + BigEndian(bits, 8)
    case Txt(width, text) =>
      if width == 0 then [0xA0 + |text|] else [0xD9 + WidthIndex(width)] + BigEndian(|text|, width)
    case Arr(width, items) =>
      if width == 0 then [0x90 + |items|] else [0xDB + WidthIndex(width)] + BigEndian(|items|, width)
    case Map(width, items) =>
      if width == 0 then [0x80 + |items| / 2] else [0xDD + WidthIndex(width)] + BigEndian(|items| / 2, width)
    case Bin(width, data) => [0xC4 + WidthIndex(width)] + BigEndian(|data|, width)
  }

  function Encode(w: Item): (r: seq<Byte>)
    requires Legal(w)
    ensures |r| > 0
    decreases w, 1
  {
    Header(w) +
    match w
    case Txt(_, text) => text
    case Bin(_, data) => data
    case Arr(_, items) => EncodeAll(items)
    case Map(_, items) => EncodeAll(items)
    case _ => []
  }

  function EncodeAll(ws: seq<Item>): (r: seq<Byte>)
    requires LegalAll(ws)
    ensures |r| >= |ws|
    decreases ws, 0
  {
    if ws == [] then [] else EncodeAll(ws[..|ws| - 1]) + Encode(ws[|ws| - 1])
  }

  // ---- Resources an item needs ----

  /** Every item, key or value, spends one node. */
  function Nodes(w: Item): (n: nat)
    ensures n >= 1
    decreases w, 1
  {
    1 + if w.Arr? || w.Map? then NodesAll(w.items) else 0
  }

  function NodesAll(ws: seq<Item>): (n: nat)
    ensures n >= |ws|
    decreases ws, 0
  {
    if ws == [] then 0 else NodesAll(ws[..|ws| - 1]) + Nodes(ws[|ws| - 1])
  }

  /** Levels below the item itself. */
  function Height(w: Item): nat
    decreases w, 1
  {
    if (w.Arr? || w.Map?) && w.items != [] then 1 + HeightAll(w.items) else 0
  }

  function HeightAll(ws: seq<Item>): nat
    decreases ws, 0
  {
    if ws == [] then 0 else Max(HeightAll(ws[..|ws| - 1]), Height(ws[|ws| - 1]))
  }

  function Max(a: nat, b: nat): nat {
    if a > b then a else b
  }

  function BinBytes(w: Item): nat
    decreases w, 1
  {
    if w.Bin? then |w.data| else if w.Arr? || w.Map? then BinBytesAll(w.items) else 0
  }

  function BinBytesAll(ws: seq<Item>): nat
    decreases ws, 0
  {
    if ws == [] then 0 else BinBytesAll(ws[..|ws| - 1]) + BinBytes(ws[|ws| - 1])
  }

  // ---- Meaning ----

  function Decimal(n: nat): (r: Text)
    ensures |r| > 0
  {
    if n < 10 then [48 + n] else Decimal(n / 10) + [48 + n % 10]
  }

  /** The map key an item stands for: its text, or in dictionary-indexed maps the
      escaped form of a number. */
  function KeyText(w: Item, indexed: bool): Option<Text> {
    match w
    case Txt(_, text) => if !indexed && ValidUtf8(text) then Some(text) else None
    case PosFix(n) => IndexKey(n, indexed)
    case UInt(_, n) => IndexKey(n, indexed)
    case SInt(_, n) => IndexKey(n, indexed)
    case _ => None
  }

  function IndexKey(n: int, indexed: bool): Option<Text> {
    if indexed && n >= 0 then Some(INDEX_PREFIX + Decimal(n)) else None
  }

  /** What the decoder makes of an item at a depth; None where it reports an error.
      In a span's `meta` (repeated), equal text under a repeated key is tolerated. */
  function Meaning(w: Item, indexed: bool, depth: nat, repeated: bool): Option<Value>
    decreases w, 2
  {
    match w
    case PosFix(n) => Some(Int(n))
    case NegFix(n) => Some(Int(n))
    case Nil => Some(Null)
    case False => Some(Bool(false))
    case True => Some(Bool(true))
    case UInt(_, n) => Some(Int(n))
    case SInt(_, n) => Some(Int(n))
    case F32(bits) => if Finite32(bits) then Some(Float(false, bits)) else None
    case F64(bits) => if Finite64(bits) then Some(Float(true, bits)) else None
    case Txt(_, text) => if ValidUtf8(text) then Some(Str(text)) else None
    case Bin(_, data) => Some(Array(seq(|data|, i requires 0 <= i < |data| => Int(data[i]))))
    case Arr(_, items) =>
      var values := MeaningAll(items, indexed, depth);
      if values.Some? then Some(Array(values.value)) else None
    case Map(_, items) =>
      var fields := MeaningMap(items, indexed, depth, repeated);
      if fields.Some? then Some(Object(fields.value)) else None
  }

  function MeaningAll(ws: seq<Item>, indexed: bool, depth: nat): (r: Option<seq<Value>>)
    ensures r.Some? ==> |r.value| == |ws|
    decreases ws, 1
  {
    if ws == [] then Some([])
    else
      var init := MeaningAll(ws[..|ws| - 1], indexed, depth);
      var last := Meaning(ws[|ws| - 1], indexed, depth + 1, false);
      if init.Some? && last.Some? then Some(init.value + [last.value]) else None
  }

  function MeaningMap(ws: seq<Item>, indexed: bool, depth: nat, repeated: bool): Option<map<Text, Value>>
    decreases ws, 1
  {
    if |ws| < 2 then Some(map[])
    else
      var init := MeaningMap(ws[..|ws| - 2], indexed, depth, repeated);
      var key := KeyText(ws[|ws| - 2], indexed);
      if init.None? || key.None? then None
      else
        var value := Meaning(ws[|ws| - 1], indexed, depth + 1, IsMeta(indexed, depth, key.value));
        if value.None? then None else AddField(init.value, key.value, value.value, repeated)
  }

  predicate IsMeta(indexed: bool, depth: nat, key: Text) {
    !indexed && depth == 2 && key == META
  }

  function AddField(fields: map<Text, Value>, key: Text, value: Value, repeated: bool): Option<map<Text, Value>> {
    if key !in fields then Some(fields[key := value])
    else if repeated && value.Str? && fields[key] == value then Some(fields)
    else None
  }

  // ---- Where binary values sit ----

  datatype Context =
    | Root
    | Trace(chunk: nat)
    | Span(chunk: nat, span: nat)
    | MetaStruct(chunk: nat, span: nat)
    | MetaStructEntry(chunk: nat, span: nat, key: Text)
    | WithinSpan(chunk: nat, span: nat)
    | Other
  {
    function ArrayChild(index: nat): Context {
      match this
      case Root => Trace(index)
      case Trace(chunk) => Span(chunk, index)
      case Other => Other
      case _ => WithinSpan(chunk, span)
    }

    function MapChild(key: Text): Context {
      match this
      case Span(chunk, span) => if key == META_STRUCT then MetaStruct(chunk, span) else WithinSpan(chunk, span)
      case MetaStruct(chunk, span) => MetaStructEntry(chunk, span, key)
      case MetaStructEntry(chunk, span, _) => WithinSpan(chunk, span)
      case WithinSpan(chunk, span) => WithinSpan(chunk, span)
      case _ => Other
    }
  }

  datatype Provenance = Provenance(fields: seq<(nat, nat, Text)>, spans: seq<(nat, nat)>, container: bool) {
    function Then(next: Provenance): Provenance {
      Provenance(fields + next.fields, spans + next.spans, container || next.container)
    }
  }

  const NO_BINARY := Provenance([], [], false)

  function BinaryAt(ctx: Context): Provenance {
    match ctx
    case MetaStructEntry(chunk, span, key) => Provenance([(chunk, span, key)], [], false)
    case Span(chunk, span) => Provenance([], [(chunk, span)], false)
    case MetaStruct(chunk, span) => Provenance([], [(chunk, span)], false)
    case WithinSpan(chunk, span) => Provenance([], [(chunk, span)], false)
    case _ => Provenance([], [], true)
  }

  /** The binary values of an item in wire order, as the decoder records them. */
  function Binaries(w: Item, indexed: bool, ctx: Context): Provenance
    decreases w, 2
  {
    match w
    case Bin(_, _) => BinaryAt(ctx)
    case Arr(_, items) => BinariesAll(items, indexed, ctx)
    case Map(_, items) => BinariesMap(items, indexed, ctx)
    case _ => NO_BINARY
  }

  function BinariesAll(ws: seq<Item>, indexed: bool, ctx: Context): Provenance
    decreases ws, 1
  {
    if ws == [] then NO_BINARY
    else BinariesAll(ws[..|ws| - 1], indexed, ctx).Then(Binaries(ws[|ws| - 1], indexed, ctx.ArrayChild(|ws| - 1)))
  }

  function BinariesMap(ws: seq<Item>, indexed: bool, ctx: Context): Provenance
    decreases ws, 1
  {
    if |ws| < 2 then NO_BINARY
    else
      var key := KeyText(ws[|ws| - 2], indexed);
      var child := if key.Some? then ctx.MapChild(key.value) else Other;
      BinariesMap(ws[..|ws| - 2], indexed, ctx).Then(Binaries(ws[|ws| - 1], indexed, child))
  }

  // ---- Laws of concatenation ----

  lemma {:induction false} Concat(a: seq<Item>, b: seq<Item>)
    ensures LegalAll(a + b) <==> LegalAll(a) && LegalAll(b)
    ensures LegalAll(a + b) ==> EncodeAll(a + b) == EncodeAll(a) + EncodeAll(b)
    ensures NodesAll(a + b) == NodesAll(a) + NodesAll(b)
    ensures BinBytesAll(a + b) == BinBytesAll(a) + BinBytesAll(b)
    ensures HeightAll(a) <= HeightAll(a + b) && HeightAll(b) <= HeightAll(a + b)
    decreases |b|
  {
    hide Encode, Legal, Nodes, Height, BinBytes, EncodeAll;
    if b == [] {
      assert a + b == a;
      EncodeNone();
    } else {
      var n := |b| - 1;
      Concat(a, b[..n]);
      assert (a + b)[..|a + b| - 1] == a + b[..n];
      if LegalAll(a + b) {
        EncodeLast(a + b);
        EncodeLast(b);
        assert EncodeAll(a) + EncodeAll(b[..n]) + Encode(b[n]) == EncodeAll(a) + (EncodeAll(b[..n]) + Encode(b[n]));
      }
    }
  }

  lemma EncodeNone()
    ensures EncodeAll([]) == []
  {
  }

  lemma EncodeLast(ws: seq<Item>)
    requires ws != [] && LegalAll(ws)
    ensures EncodeAll(ws) == EncodeAll(ws[..|ws| - 1]) + Encode(ws[|ws| - 1])
  {
  }

  lemma One(w: Item)
    ensures LegalAll([w]) <==> Legal(w)
    ensures Legal(w) ==> EncodeAll([w]) == Encode(w)
    ensures NodesAll([w]) == Nodes(w) && BinBytesAll([w]) == BinBytes(w) && HeightAll([w]) == Height(w)
  {
    hide Encode, Legal, Nodes, Height, BinBytes;
    assert [w][..0] == [];
    assert LegalAll([]) && NodesAll([]) == 0 && BinBytesAll([]) == 0 && HeightAll([]) == 0;
    assert EncodeAll([]) == [];
  }
}
