/** The budgeted recursive decoder, proved to accept exactly the items that fit. */
module MessagePackDecoder {
  import opened Basics
  import opened Wrappers
  import opened MessagePack
  import opened DecoderBudget

  datatype DecodeError =
    | Budget | Truncated | InvalidUtf8 | NonFinite | UnsupportedTag | UnsupportedKey | DuplicateKey | TrailingBytes
    | TooLarge

  // ---- Tags ----

  datatype TagClass =
    | TPos | TNeg | TNil | TFalse | TTrue
    | TUInt(width: nat) | TSInt(width: nat) | TF32 | TF64
    | TTxt(width: nat) | TArr(width: nat) | TMap(width: nat) | TBin(width: nat)
    | TBad

  // 1 << index.
  function WidthAt(index: int): nat
    requires 0 <= index < 4
  {
    if index == 0 then 1 else if index == 1 then 2 else if index == 2 then 4 else 8
  }

  function ClassOfTag(tag: Byte): TagClass {
    if tag <= 0x7F then TPos
    else if tag <= 0x8F then TMap(0)
    else if tag <= 0x9F then TArr(0)
    else if tag <= 0xBF then TTxt(0)
    else if tag >= 0xE0 then TNeg
    else if tag == 0xC0 then TNil
    else if tag == 0xC2 then TFalse
    else if tag == 0xC3 then TTrue
    else if 0xC4 <= tag <= 0xC6 then TBin(WidthAt(tag - 0xC4))
    else if tag == 0xCA then TF32
    else if tag == 0xCB then TF64
    else if 0xCC <= tag <= 0xCF then TUInt(WidthAt(tag - 0xCC))
    else if 0xD0 <= tag <= 0xD3 then TSInt(WidthAt(tag - 0xD0))
    else if 0xD9 <= tag <= 0xDB then TTxt(WidthAt(tag - 0xD9))
    else if tag == 0xDC || tag == 0xDD then TArr(WidthAt(tag - 0xDB))
    else if tag == 0xDE || tag == 0xDF then TMap(WidthAt(tag - 0xDD))
    else TBad
  }

  function ClassOf(w: Item): TagClass {
    match w
    case PosFix(_) => TPos
    case NegFix(_) => TNeg
    case Nil => TNil
    case False => TFalse
    case True => TTrue
    case UInt(width, _) => TUInt(width)
    case SInt(width, _) => TSInt(width)
    case F32(_) => TF32
    case F64(_) => TF64
    case Txt(width, _) => TTxt(width)
    case Arr(width, _) => TArr(width)
    case Map(width, _) => TMap(width)
    case Bin(width, _) => TBin(width)
  }

  /** The first byte of an item tells its form. */
  lemma TagTellsClass(w: Item)
    requires LegalHead(w)
    ensures ClassOfTag(Header(w)[0]) == ClassOf(w)
  {
    hide BigEndian, Pow256;
  }

  lemma ReadBack(bytes: seq<Byte>, pos: int, tag: Byte, width: nat, n: int)
    requires 0 <= n < Pow256(width) && Starts(bytes, pos, [tag] + BigEndian(n, width))
    ensures 0 <= pos && pos + 1 + width <= |bytes| && bytes[pos] == tag
    ensures FromBytes(bytes[pos + 1..pos + 1 + width]) == n
  {
    FromBigEndian(n, width);
    var e := [tag] + BigEndian(n, width);
    assert bytes[pos..pos + |e|][0] == e[0];
    assert bytes[pos + 1..pos + 1 + width] == bytes[pos..pos + |e|][1..] == BigEndian(n, width);
  }

  lemma WriteBack(bytes: seq<Byte>, pos: int, tag: Byte, width: nat)
    requires 0 <= pos && pos + 1 + width <= |bytes| && bytes[pos] == tag
    ensures var n := FromBytes(bytes[pos + 1..pos + 1 + width]);
            n < Pow256(width) && Starts(bytes, pos, [tag] + BigEndian(n, width))
  {
    hide BigEndian, FromBytes, Pow256;
    ToBigEndian(bytes[pos + 1..pos + 1 + width]);
    assert bytes[pos..pos + 1 + width] == [bytes[pos]] + bytes[pos + 1..pos + 1 + width];
  }

  /** What a promised item says about the bytes at the cursor. */
  lemma PromisedHead(f: Frame, s: Snapshot, w: Item, ctx: Context, depth: nat, repeated: bool)
    requires Fits(f, s, w, ctx, depth, repeated)
    ensures 0 <= s.pos < |f.bytes| && ClassOfTag(f.bytes[s.pos]) == ClassOf(w)
    ensures Starts(f.bytes, s.pos, Header(w))
    ensures depth <= MAX_DEPTH && s.remaining >= 1
  {
    hide Header, ClassOf, ClassOfTag, LegalHead, Allocated, Meaning;
    TagTellsClass(w);
    var rest := Encode(w)[|Header(w)|..];
    assert Encode(w) == Header(w) + rest;
    StartsSplit(f.bytes, s.pos, Header(w), rest);
    assert f.bytes[s.pos] == f.bytes[s.pos..s.pos + |Header(w)|][0];
  }

  // ---- Unique reading ----

  lemma SameNumber(m: int, n: int, width: nat)
    requires 0 <= m < Pow256(width) && 0 <= n < Pow256(width) && BigEndian(m, width) == BigEndian(n, width)
    ensures m == n
  {
    FromBigEndian(m, width);
    FromBigEndian(n, width);
  }

  ghost predicate SameShape(v: Item, w: Item) {
    match v
    case Txt(_, text) => w.Txt? && |w.text| == |text|
    case Bin(_, data) => w.Bin? && |w.data| == |data|
    case Arr(_, items) => w.Arr? && |w.items| == |items|
    case Map(_, items) => w.Map? && |w.items| == |items|
    case _ => v == w
  }

  lemma HeaderLength(w: Item)
    requires LegalHead(w)
    ensures |Header(w)| == 1 + match ClassOf(w)
              case TUInt(width) => width
              case TSInt(width) => width
              case TF32 => 4
              case TF64 => 8
              case TTxt(width) => width
              case TArr(width) => width
              case TMap(width) => width
              case TBin(width) => width
              case _ => 0
  {
    hide BigEndian, Pow256;
  }

  /** The number that stands after the tag, for forms that have one. */
  ghost function HeaderNumber(w: Item): int {
    match w
    case UInt(_, n) => n
    case SInt(width, n) => if n < 0 then n + Pow256(width) else n
    case F32(bits) => bits
    case F64(bits) => bits
    case Txt(_, text) => |text|
    case Arr(_, items) => |items|
    case Map(_, items) => |items| / 2
    case Bin(_, data) => |data|
    case _ => 0
  }

  lemma HeaderIsNumber(w: Item)
    requires LegalHead(w)
    ensures var width := |Header(w)| - 1;
            width > 0 ==> 0 <= HeaderNumber(w) < Pow256(width) && Header(w)[1..] == BigEndian(HeaderNumber(w), width)
  {
    hide BigEndian, Pow256;
    if w.F32? || w.F64? || w.UInt? || w.SInt? || ((w.Txt? || w.Arr? || w.Map? || w.Bin?) && w.width > 0) {
      assert Header(w)[1..] == BigEndian(HeaderNumber(w), |Header(w)| - 1);
    }
  }

  lemma SameHeader(v: Item, w: Item)
    requires LegalHead(v) && LegalHead(w) && Header(v) == Header(w)
    ensures ClassOf(v) == ClassOf(w) && SameShape(v, w)
  {
    TagTellsClass(v);
    TagTellsClass(w);
    HeaderIsNumber(v);
    HeaderIsNumber(w);
    if |Header(v)| > 1 {
      SameNumber(HeaderNumber(v), HeaderNumber(w), |Header(v)| - 1);
    }
    SameNumberSameShape(v, w);
  }

  lemma SameNumberSameShape(v: Item, w: Item)
    requires LegalHead(v) && LegalHead(w) && ClassOf(v) == ClassOf(w)
    requires Header(v)[0] == Header(w)[0]
    requires |Header(v)| > 1 ==> HeaderNumber(v) == HeaderNumber(w)
    ensures SameShape(v, w)
  {
    hide BigEndian, Pow256;
    HeaderLength(v);
  }

  /** The bytes of the contents after the header. */
  ghost function Contents(w: Item): seq<Byte>
    requires Legal(w)
  {
    match w
    case Txt(_, text) => text
    case Bin(_, data) => data
    case Arr(_, items) => EncodeAll(items)
    case Map(_, items) => EncodeAll(items)
    case _ => []
  }

  lemma SplitEqual(a: seq<Byte>, b: seq<Byte>, x: seq<Byte>, y: seq<Byte>)
    requires a + x == b + y && |a| == |b|
    ensures a == b && x == y
  {
    assert a == (a + x)[..|a|] && b == (b + y)[..|a|];
    assert x == (a + x)[|a|..] && y == (b + y)[|a|..];
  }

  lemma EqualHeads(v: Item, w: Item, x: seq<Byte>, y: seq<Byte>)
    requires Legal(v) && Legal(w) && Encode(v) + x == Encode(w) + y
    ensures Header(v) == Header(w) && Contents(v) + x == Contents(w) + y
  {
    hide Header, LegalHead, LegalAll, EncodeAll, ClassOf, ClassOfTag;
    assert Encode(v) + x == Header(v) + (Contents(v) + x);
    assert Encode(w) + y == Header(w) + (Contents(w) + y);
    TagTellsClass(v);
    TagTellsClass(w);
    assert (Encode(v) + x)[0] == Header(v)[0] && (Encode(w) + y)[0] == Header(w)[0];
    HeaderLength(v);
    HeaderLength(w);
    SplitEqual(Header(v), Header(w), Contents(v) + x, Contents(w) + y);
  }

  /** No two items share their bytes, whatever follows them. */
  lemma {:induction false} UniqueReading(v: Item, w: Item, x: seq<Byte>, y: seq<Byte>)
    requires Legal(v) && Legal(w) && Encode(v) + x == Encode(w) + y
    ensures v == w && x == y
    decreases v, 1
  {
    hide Header, LegalHead, Encode, EncodeAll, LegalAll;
    EqualHeads(v, w, x, y);
    LegalParts(v);
    LegalParts(w);
    SameHeader(v, w);
    if v.Arr? || v.Map? {
      UniqueReadingAll(v.items, w.items, x, y);
    } else {
      SplitEqual(Contents(v), Contents(w), x, y);
    }
  }

  lemma LegalParts(w: Item)
    requires Legal(w)
    ensures LegalHead(w) && (w.Arr? || w.Map? ==> LegalAll(w.items))
  {
    hide LegalHead, LegalAll;
  }

  lemma FirstAndRest(ws: seq<Item>, x: seq<Byte>)
    requires LegalAll(ws)
    ensures ws == [] ==> EncodeAll(ws) + x == x
    ensures ws != [] ==>
              && Legal(ws[0]) && LegalAll(ws[1..])
              && EncodeAll(ws) + x == Encode(ws[0]) + (EncodeAll(ws[1..]) + x)
  {
    hide Encode, Legal;
    if ws != [] {
      hide EncodeAll, LegalAll;
      assert ws == [ws[0]] + ws[1..];
      Concat([ws[0]], ws[1..]);
      One(ws[0]);
      assert Encode(ws[0]) + EncodeAll(ws[1..]) + x == Encode(ws[0]) + (EncodeAll(ws[1..]) + x);
    }
  }

  lemma {:induction false} UniqueReadingAll(vs: seq<Item>, ws: seq<Item>, x: seq<Byte>, y: seq<Byte>)
    requires LegalAll(vs) && LegalAll(ws) && |vs| == |ws| && EncodeAll(vs) + x == EncodeAll(ws) + y
    ensures vs == ws && x == y
    decreases vs, 0
  {
    hide Encode, EncodeAll, Legal, LegalAll;
    FirstAndRest(vs, x);
    FirstAndRest(ws, y);
    if vs != [] {
      UniqueReading(vs[0], ws[0], EncodeAll(vs[1..]) + x, EncodeAll(ws[1..]) + y);
      UniqueReadingAll(vs[1..], ws[1..], x, y);
      assert vs == [vs[0]] + vs[1..] && ws == [ws[0]] + ws[1..];
    }
  }

  // ---- Leaves ----

  ghost predicate IsLeaf(w: Item) {
    !w.Arr? && !w.Map? && !w.Bin?
  }

  ghost function LeafBytes(w: Item): seq<Byte>
    requires LegalHead(w) && IsLeaf(w)
  {
    Header(w) + if w.Txt? then w.text else []
  }

  lemma LeafFits(f: Frame, s: Snapshot, w: Item, ctx: Context, depth: nat, repeated: bool)
    requires LegalHead(w) && IsLeaf(w) && Meaning(w, f.indexed, depth, repeated).Some? && depth <= MAX_DEPTH
    requires Affordable(f, s.(remaining := s.remaining - 1))
    requires Starts(f.bytes, s.pos, LeafBytes(w))
    ensures Fits(f, s, w, ctx, depth, repeated)
    ensures After(f, s, w, ctx) == s.(pos := s.pos + |LeafBytes(w)|, remaining := s.remaining - 1)
  {
    hide Header, Meaning, LegalHead, Allocated;
    assert Encode(w) == LeafBytes(w);
    ThenAssociative(s.binaries, NO_BINARY, NO_BINARY);
    assert Binaries(w, f.indexed, ctx) == NO_BINARY;
  }

  function SimpleItem(tag: Byte): Item {
    if tag <= 0x7F then PosFix(tag)
    else if tag >= 0xE0 then NegFix(tag - 256)
    else if tag == 0xC0 then Nil
    else if tag == 0xC2 then False
    else True
  }

  ghost predicate IsSimple(c: TagClass) {
    c in {TPos, TNeg, TNil, TFalse, TTrue}
  }

  lemma SimpleForm(tag: Byte)
    requires IsSimple(ClassOfTag(tag))
    ensures var w := SimpleItem(tag); LegalHead(w) && IsLeaf(w) && LeafBytes(w) == [tag]
  {
  }

  lemma SimplePromise(f: Frame, s: Snapshot, w: Item, ctx: Context, depth: nat, repeated: bool, tag: Byte)
    requires Fits(f, s, w, ctx, depth, repeated) && 0 <= s.pos < |f.bytes| && f.bytes[s.pos] == tag
    requires IsSimple(ClassOfTag(tag))
    ensures w == SimpleItem(tag)
  {
    hide Header, Affordable, Meaning, Encode, ClassOfTag, ClassOf, SimpleItem, Starts;
    PromisedHead(f, s, w, ctx, depth, repeated);
    SimpleHeader(w);
    FirstByte(f.bytes, s.pos, Header(w));
  }

  lemma SimpleHeader(w: Item)
    requires LegalHead(w) && IsSimple(ClassOf(w))
    ensures SimpleItem(Header(w)[0]) == w
  {
  }

  // ---- Numbers after a tag ----

  lemma UnsignedForm(tag: Byte, n: int)
    requires 0xCC <= tag <= 0xCF && 0 <= n < Pow256(WidthAt(tag - 0xCC))
    ensures var w := UInt(WidthAt(tag - 0xCC), n);
            LegalHead(w) && IsLeaf(w) && LeafBytes(w) == [tag] + BigEndian(n, w.width)
  {
    hide BigEndian, Pow256;
  }

  lemma SignedForm(tag: Byte, v: int)
    requires 0xD0 <= tag <= 0xD3 && 0 <= v < Pow256(WidthAt(tag - 0xD0))
    ensures var width := WidthAt(tag - 0xD0);
            var w := SInt(width, SignExtend(v, width));
            LegalHead(w) && IsLeaf(w) && LeafBytes(w) == [tag] + BigEndian(v, width)
  {
    hide BigEndian, Pow256, SignExtend;
    SignExtendIsTwosComplement(v, WidthAt(tag - 0xD0));
  }

  lemma FloatForm(tag: Byte, bits: int)
    requires (tag == 0xCA && 0 <= bits < Pow256(4)) || (tag == 0xCB && 0 <= bits < Pow256(8))
    ensures var w := if tag == 0xCA then F32(bits) else F64(bits);
            LegalHead(w) && IsLeaf(w) && LeafBytes(w) == [tag] + BigEndian(bits, if tag == 0xCA then 4 else 8)
  {
    hide BigEndian, Pow256;
  }

  lemma UnsignedPromise(f: Frame, s: Snapshot, w: Item, ctx: Context, depth: nat, repeated: bool, tag: Byte)
    requires Fits(f, s, w, ctx, depth, repeated) && 0 <= s.pos < |f.bytes| && f.bytes[s.pos] == tag &&
             0xCC <= tag <= 0xCF
    ensures var width := WidthAt(tag - 0xCC);
            w.UInt? && w.width == width && 0 <= w.n < Pow256(width) &&
              Starts(f.bytes, s.pos, [tag] + BigEndian(w.n, width))
  {
    hide BigEndian, Pow256, Starts, Affordable, Meaning, Encode;
    PromisedHead(f, s, w, ctx, depth, repeated);
    UnsignedForm(tag, w.n);
  }

  // The unsigned number whose sign extension is n.
  function Unsign(n: int, width: nat): int {
    if n < 0 then n + Pow256(width) else n
  }

  lemma SignedPromise(f: Frame, s: Snapshot, w: Item, ctx: Context, depth: nat, repeated: bool, tag: Byte)
    requires Fits(f, s, w, ctx, depth, repeated) && 0 <= s.pos < |f.bytes| && f.bytes[s.pos] == tag &&
             0xD0 <= tag <= 0xD3
    ensures var width := WidthAt(tag - 0xD0);
            && w.SInt? && w.width == width && 0 <= Unsign(w.n, width) < Pow256(width)
            && SignExtend(Unsign(w.n, width), width) == w.n
            && Starts(f.bytes, s.pos, [tag] + BigEndian(Unsign(w.n, width), width))
  {
    hide BigEndian, Pow256, Starts, Affordable, Meaning, Encode, SignExtend;
    PromisedHead(f, s, w, ctx, depth, repeated);
    SignExtendIsTwosComplement(Unsign(w.n, w.width), w.width);
    SignedForm(tag, Unsign(w.n, w.width));
  }

  lemma FloatPromise(f: Frame, s: Snapshot, w: Item, ctx: Context, depth: nat, repeated: bool, tag: Byte)
    requires Fits(f, s, w, ctx, depth, repeated) && 0 <= s.pos < |f.bytes| && f.bytes[s.pos] == tag
    requires tag == 0xCA || tag == 0xCB
    ensures var width := if tag == 0xCA then 4 else 8;
            && (if tag == 0xCA then w.F32? && Finite32(w.bits) else w.F64? && Finite64(w.bits))
            && w.bits < Pow256(width) && Starts(f.bytes, s.pos, [tag] + BigEndian(w.bits, width))
  {
    hide BigEndian, Pow256, Starts, Affordable, Encode, Finite32, Finite64;
    PromisedHead(f, s, w, ctx, depth, repeated);
    FloatForm(tag, w.bits);
  }

  // ---- Counts after a tag ----

  ghost predicate IsSized(c: TagClass) {
    c.TTxt? || c.TArr? || c.TMap? || c.TBin?
  }

  ghost function Count(w: Item): nat
    requires IsSized(ClassOf(w))
  {
    match w
    case Txt(_, text) => |text|
    case Arr(_, items) => |items|
    case Map(_, items) => |items| / 2
    case Bin(_, data) => |data|
  }

  /** The count a tag carries itself: its low five or four bits. */
  function TagCount(tag: Byte): nat {
    if 0xA0 <= tag then tag % 0x20 else tag % 0x10
  }

  ghost function CountBytes(tag: Byte, width: nat, n: int): seq<Byte>
    requires width > 0 ==> 0 <= n < Pow256(width)
  {
    if width == 0 then [tag] else [tag] + BigEndian(n, width)
  }

  ghost predicate CountAgrees(tag: Byte, width: nat, n: int) {
    if width == 0 then n == TagCount(tag) else 0 <= n < Pow256(width)
  }

  lemma SizedForm(tag: Byte, w: Item)
    requires IsSized(ClassOf(w)) && ClassOfTag(tag) == ClassOf(w) && CountAgrees(tag, w.width, Count(w))
    requires w.Map? ==> |w.items| % 2 == 0
    ensures LegalHead(w) && Header(w) == CountBytes(tag, w.width, Count(w))
  {
    hide BigEndian, Pow256;
  }

  lemma SizedPromise(f: Frame, s: Snapshot, w: Item, ctx: Context, depth: nat, repeated: bool, tag: Byte)
    requires Fits(f, s, w, ctx, depth, repeated) && 0 <= s.pos < |f.bytes| && f.bytes[s.pos] == tag
    requires IsSized(ClassOfTag(tag))
    ensures ClassOf(w) == ClassOfTag(tag) && LegalHead(w) && CountAgrees(tag, w.width, Count(w))
    ensures Header(w) == CountBytes(tag, w.width, Count(w)) && Starts(f.bytes, s.pos, Header(w))
  {
    hide BigEndian, Pow256, Starts, Affordable, Meaning, Encode, Header, ClassOfTag;
    PromisedHead(f, s, w, ctx, depth, repeated);
    SizedHeader(tag, w);
    assert f.bytes[s.pos] == Header(w)[0] by {
      FirstByte(f.bytes, s.pos, Header(w));
    }
  }

  lemma FirstByte(bytes: seq<Byte>, pos: int, e: seq<Byte>)
    requires Starts(bytes, pos, e) && |e| > 0
    ensures bytes[pos] == e[0]
  {
    assert bytes[pos..pos + |e|][0] == bytes[pos];
  }

  lemma SizedHeader(tag: Byte, w: Item)
    requires LegalHead(w) && IsSized(ClassOf(w))
    ensures Header(w)[0] == tag ==>
            CountAgrees(tag, w.width, Count(w)) && Header(w) == CountBytes(tag, w.width, Count(w))
  {
    hide BigEndian, Pow256;
  }

  // ---- Contents after a header ----

  // The state once the header of w has been read.
  ghost function Opened(s: Snapshot, header: seq<Byte>): Snapshot {
    s.(pos := s.pos + |header|, remaining := s.remaining - 1)
  }

  lemma ArrayFits(f: Frame, s: Snapshot, w: Item, ctx: Context, depth: nat, repeated: bool)
    requires w.Arr? && LegalHead(w) && depth <= MAX_DEPTH
    ensures Fits(f, s, w, ctx, depth, repeated) <==>
            Starts(f.bytes, s.pos, Header(w)) && FitsArray(f, Opened(s, Header(w)), w.items, ctx, depth)
    ensures Legal(w) ==> After(f, s, w, ctx) == ArrayState(f, Opened(s, Header(w)), w.items, ctx)
  {
    hide Header, LegalHead, EncodeAll, LegalAll, NodesAll, HeightAll, BinBytesAll, BinariesAll, MeaningAll, Affordable,
         Starts;
    if LegalAll(w.items) {
      StartsSplit(f.bytes, s.pos, Header(w), EncodeAll(w.items));
    }
  }

  lemma MapFits(f: Frame, s: Snapshot, w: Item, ctx: Context, depth: nat, repeated: bool)
    requires w.Map? && LegalHead(w) && |w.items| % 2 == 0 && depth <= MAX_DEPTH
    ensures Fits(f, s, w, ctx, depth, repeated) <==>
            Starts(f.bytes, s.pos, Header(w)) && FitsMap(f, Opened(s, Header(w)), w.items, ctx, depth, repeated)
    ensures Legal(w) ==> After(f, s, w, ctx) == MapState(f, Opened(s, Header(w)), w.items, ctx)
  {
    hide Header, LegalHead, EncodeAll, LegalAll, NodesAll, HeightAll, BinBytesAll, BinariesMap, MeaningMap, Affordable,
         Starts;
    if LegalAll(w.items) {
      StartsSplit(f.bytes, s.pos, Header(w), EncodeAll(w.items));
    }
  }

  lemma BinaryFits(f: Frame, s: Snapshot, w: Item, ctx: Context, depth: nat, repeated: bool)
    requires w.Bin? && LegalHead(w) && depth <= MAX_DEPTH
    ensures Fits(f, s, w, ctx, depth, repeated) <==>
            && Starts(f.bytes, s.pos, Header(w)) && Starts(f.bytes, s.pos + |Header(w)|, w.data)
            && Affordable(f, After(f, s, w, ctx))
    ensures Legal(w) && After(f, s, w, ctx) ==
            Snapshot(s.pos + |Header(w)| + |w.data|, s.remaining - 1, s.binaryRemaining - |w.data|,
              s.binaries.Then(BinaryAt(ctx)))
  {
    hide Header, LegalHead, Affordable, Starts;
    StartsSplit(f.bytes, s.pos, Header(w), w.data);
  }

  lemma TextFits(f: Frame, s: Snapshot, w: Item, ctx: Context, depth: nat, repeated: bool)
    requires w.Txt? && Fits(f, s, w, ctx, depth, repeated)
    ensures Starts(f.bytes, s.pos + |Header(w)|, w.text) && ValidUtf8(w.text)
  {
    hide Header, LegalHead, Affordable, Starts, ValidUtf8;
    StartsSplit(f.bytes, s.pos, Header(w), w.text);
  }

  // ---- Cost of recording one binary value ----

  ghost function RecordCost(f: Frame, p: Provenance, ctx: Context): int {
    match ctx
    case MetaStructEntry(_, _, key) => Times(Growth(|p.fields| + 1) - Growth(|p.fields|), f.fieldSize) + |key|
    case Span(_, _) => Times(Growth(|p.spans| + 1) - Growth(|p.spans|), f.spanSize)
    case MetaStruct(_, _) => Times(Growth(|p.spans| + 1) - Growth(|p.spans|), f.spanSize)
    case WithinSpan(_, _) => Times(Growth(|p.spans| + 1) - Growth(|p.spans|), f.spanSize)
    case _ => 0
  }

  lemma AllocatedStep(f: Frame, binary: int, n: int, p: Provenance, ctx: Context)
    ensures Allocated(f, binary + n, p.Then(BinaryAt(ctx))) ==
            Allocated(f, binary, p) + Times(n, f.valueSize) + RecordCost(f, p, ctx)
  {
    hide Growth;
    TimesAdd(binary, n, f.valueSize);
    var q := p.Then(BinaryAt(ctx));
    if ctx.MetaStructEntry? {
      assert q.fields[..|p.fields|] == p.fields;
    } else {
      assert q.fields == p.fields;
    }
    TimesAdd(Growth(|p.fields|), Growth(|p.fields| + 1) - Growth(|p.fields|), f.fieldSize);
    TimesAdd(Growth(|p.spans|), Growth(|p.spans| + 1) - Growth(|p.spans|), f.spanSize);
  }

  lemma RecordCostNonNegative(f: Frame, p: Provenance, ctx: Context)
    ensures RecordCost(f, p, ctx) >= 0
  {
    hide Growth, Times;
    GrowthMonotone(|p.fields|, |p.fields| + 1);
    GrowthMonotone(|p.spans|, |p.spans| + 1);
    TimesNonNegative(Growth(|p.fields| + 1) - Growth(|p.fields|), f.fieldSize);
    TimesNonNegative(Growth(|p.spans| + 1) - Growth(|p.spans|), f.spanSize);
  }

  lemma TimesNonNegative(n: nat, size: nat)
    ensures Times(n, size) >= 0
  {
    TimesMonotone(0, n, size);
  }

  // A vector grows exactly when it is full, to twice its capacity and at least 1.
  lemma ReserveCost(length: nat, size: nat)
    ensures length != Capacity(length) ==>
              Capacity(length + 1) == Capacity(length) && Times(Growth(length + 1) - Growth(length), size) == 0
    ensures length == Capacity(length) ==>
              && Capacity(length + 1) == (if 2 * length > 1 then 2 * length else 1)
              && Times(Growth(length + 1) - Growth(length), size) == Capacity(length + 1) * size
  {
    GrowthStep(length);
    hide Growth, Capacity, Times;
    TimesIsProduct(Growth(length + 1) - Growth(length), size);
  }

  lemma GrowthStep(length: nat)
    ensures length != Capacity(length) ==>
              Capacity(length + 1) == Capacity(length) && Growth(length + 1) == Growth(length)
    ensures length == Capacity(length) ==>
              && Capacity(length + 1) == (if 2 * length > 1 then 2 * length else 1)
              && Growth(length + 1) - Growth(length) == Capacity(length + 1)
  {
  }

  lemma ProductGrows(a: nat, b: nat, size: nat)
    requires size >= 2
    ensures a * size >= 2 * a
    ensures a <= b ==> a * size <= b * size
  {
    TimesIsProduct(a, size);
    TimesIsProduct(b, size);
    if a <= b {
      TimesMonotone(a, b, size);
    }
    assert a * size - 2 * a == a * (size - 2);
  }

  // ---- The decoder ----

  class Decoder {
    const frame: Frame
    var pos: nat
    var remaining: nat
    var binaryRemaining: nat
    var allocationRemaining: nat
    var allocationBytes: nat
    var binaries: Provenance
    var fieldCapacity: nat
    var spanCapacity: nat

    constructor (frame: Frame, nodes: nat)
      requires frame.Sane()
      ensures Valid() && this.frame == frame
      ensures Snap() == Snapshot(0, nodes, frame.binaryBudget, NO_BINARY)
    {
      this.frame := frame;
      pos, remaining := 0, nodes;
      binaryRemaining, allocationRemaining, allocationBytes := frame.binaryBudget, frame.allocationBudget, 0;
      binaries := NO_BINARY;
      fieldCapacity, spanCapacity := 0, 0;
      new;
      TimesIsProduct(0, frame.valueSize);
      TimesIsProduct(0, frame.fieldSize);
      TimesIsProduct(0, frame.spanSize);
    }

    /** Holds at every moment: nothing is charged without being taken from what
        remains, and the cursor stays inside the payload. */
    ghost predicate Accounted()
      reads this
    {
      && frame.Sane() && pos <= |frame.bytes|
      && allocationRemaining + allocationBytes == frame.allocationBudget
      && binaryRemaining <= frame.binaryBudget
    }

    /** Holds between items: what is charged is exactly the binary data seen and
        every capacity its record went through. */
    ghost predicate Valid()
      reads this
    {
      && Accounted()
      && fieldCapacity == Capacity(|binaries.fields|) && spanCapacity == Capacity(|binaries.spans|)
      && allocationBytes == Allocated(frame, frame.binaryBudget - binaryRemaining, binaries)
    }

    ghost function Snap(): Snapshot
      reads this
    {
      Snapshot(pos, remaining, binaryRemaining, binaries)
    }

    /** The outcome for one item that starts at s. */
    ghost predicate Decoded(s: Snapshot, w: Item, ctx: Context, depth: nat, repeated: bool, v: Value)
      reads this
    {
      && Valid() && Fits(frame, s, w, ctx, depth, repeated) && Snap() == After(frame, s, w, ctx)
      && Meaning(w, frame.indexed, depth, repeated) == Some(v)
    }

    // The tag of the item that starts at s has just been read.
    ghost predicate AtTag(s: Snapshot, tag: Byte, depth: nat)
      reads this
    {
      && Valid() && depth <= MAX_DEPTH
      && 0 <= s.pos < |frame.bytes| && frame.bytes[s.pos] == tag
      && Snap() == s.(pos := s.pos + 1, remaining := s.remaining - 1)
    }

    ghost predicate Promised(s: Snapshot, hint: Option<Item>, ctx: Context, depth: nat, repeated: bool) {
      hint.Some? ==> Fits(frame, s, hint.value, ctx, depth, repeated)
    }

    method Take(n: nat) returns (r: Result<seq<Byte>, DecodeError>)
      requires pos <= |frame.bytes|
      modifies this`pos
      ensures r.Ok? <==> old(pos) + n <= |frame.bytes|
      ensures r.Ok? ==> pos == old(pos) + n && r.value == frame.bytes[old(pos)..pos]
      ensures r.Err? ==> pos == old(pos)
    {
      if pos + n > |frame.bytes| {
        return Err(Truncated);
      }
      r := Ok(frame.bytes[pos..pos + n]);
      pos := pos + n;
    }

    method ReadUInt(n: nat) returns (r: Result<nat, DecodeError>)
      requires pos <= |frame.bytes|
      modifies this`pos
      ensures r.Ok? <==> old(pos) + n <= |frame.bytes|
      ensures r.Ok? ==> pos == old(pos) + n && r.value == FromBytes(frame.bytes[old(pos)..pos]) && r.value < Pow256(n)
      ensures r.Err? ==> pos == old(pos)
    {
      var taken := Take(n);
      if taken.Err? {
        return Err(taken.error);
      }
      var v: nat := 0;
      for i := 0 to n
        invariant v == FromBytes(taken.value[..i])
      {
        assert taken.value[..i + 1][..i] == taken.value[..i];
        v := 256 * v + taken.value[i];
      }
      assert taken.value[..n] == taken.value;
      return Ok(v);
    }

    method Charge(bytes: nat) returns (ok: bool)
      requires Accounted()
      modifies this`allocationRemaining, this`allocationBytes
      ensures Accounted()
      ensures ok <==> bytes <= old(allocationRemaining)
      ensures ok ==> allocationBytes == old(allocationBytes) + bytes
      ensures !ok ==> allocationBytes == old(allocationBytes)
    {
      if allocationRemaining < bytes {
        return false;
      }
      allocationRemaining := allocationRemaining - bytes;
      if allocationBytes + bytes > USIZE_MAX {
        assert false;
        return false;
      }
      allocationBytes := allocationBytes + bytes;
      return true;
    }

    /** Room for one more element in a vector of `length` elements. */
    method Reserve(length: nat, capacity: nat, size: nat) returns (r: Option<nat>)
      requires Accounted() && size >= 2 && capacity == Capacity(length)
      modifies this`allocationRemaining, this`allocationBytes
      ensures Accounted()
      ensures Times(Growth(length + 1) - Growth(length), size) <= old(allocationRemaining) ==> r.Some?
      ensures r.Some? ==> r.value == Capacity(length + 1)
      ensures r.Some? ==> allocationBytes == old(allocationBytes) + Times(Growth(length + 1) - Growth(length), size)
    {
      hide Growth, Capacity, Times;
      ReserveCost(length, size);
      if length != capacity {
        return Some(capacity);
      }
      var doubled := if 2 * capacity > USIZE_MAX then USIZE_MAX else 2 * capacity;
      var next := if doubled > 1 then doubled else 1;
      ProductGrows(next, Capacity(length + 1), size);
      if next * size > USIZE_MAX {
        return None;
      }
      var ok := Charge(next * size);
      return if ok then Some(next) else None;
    }

    /** Records where a binary value of the given context was. */
    method Record(ctx: Context) returns (ok: bool)
      requires Accounted()
      requires fieldCapacity == Capacity(|binaries.fields|) && spanCapacity == Capacity(|binaries.spans|)
      modifies this`allocationRemaining, this`allocationBytes, this`binaries, this`fieldCapacity, this`spanCapacity
      ensures Accounted()
      ensures RecordCost(frame, old(binaries), ctx) <= old(allocationRemaining) ==> ok
      ensures ok ==> binaries == old(binaries).Then(BinaryAt(ctx))
      ensures ok ==> allocationBytes == old(allocationBytes) + RecordCost(frame, old(binaries), ctx)
      ensures ok ==> fieldCapacity == Capacity(|binaries.fields|) && spanCapacity == Capacity(|binaries.spans|)
    {
      hide Growth, Capacity, Times;
      match ctx
      case MetaStructEntry(chunk, span, key) =>
        var reserved := Reserve(|binaries.fields|, fieldCapacity, frame.fieldSize);
        if reserved.None? {
          return false;
        }
        ok := Charge(|key|);
        if !ok {
          return;
        }
        fieldCapacity := reserved.value;
        binaries := binaries.(fields := binaries.fields + [(chunk, span, key)]);
      case Span(chunk, span) =>
        ok := RecordSpan(chunk, span);
      case MetaStruct(chunk, span) =>
        ok := RecordSpan(chunk, span);
      case WithinSpan(chunk, span) =>
        ok := RecordSpan(chunk, span);
      case _ =>
        binaries := binaries.(container := true);
        ok := true;
    }

    method RecordSpan(chunk: nat, span: nat) returns (ok: bool)
      requires Accounted() && spanCapacity == Capacity(|binaries.spans|)
      modifies this`allocationRemaining, this`allocationBytes, this`binaries, this`spanCapacity
      ensures Accounted()
      ensures var cost := Times(Growth(|old(binaries.spans)| + 1) - Growth(|old(binaries.spans)|), frame.spanSize);
              && (cost <= old(allocationRemaining) ==> ok)
              && (ok ==> allocationBytes == old(allocationBytes) + cost)
      ensures ok ==> binaries == old(binaries).(spans := old(binaries.spans) + [(chunk, span)])
      ensures ok ==> spanCapacity == Capacity(|binaries.spans|)
    {
      var reserved := Reserve(|binaries.spans|, spanCapacity, frame.spanSize);
      if reserved.None? {
        return false;
      }
      spanCapacity := reserved.value;
      binaries := binaries.(spans := binaries.spans + [(chunk, span)]);
      return true;
    }

    // ---- Items without contents ----

    lemma ValidIsAffordable()
      requires Valid()
      ensures Affordable(frame, Snap())
    {
    }

    /** A leaf whose bytes have all been read is decoded. */
    lemma LeafDecoded(s: Snapshot, w: Item, ctx: Context, depth: nat, repeated: bool)
      requires Valid() && LegalHead(w) && IsLeaf(w) && depth <= MAX_DEPTH
      requires Meaning(w, frame.indexed, depth, repeated).Some?
      requires Starts(frame.bytes, s.pos, LeafBytes(w))
      requires Snap() == s.(pos := s.pos + |LeafBytes(w)|, remaining := s.remaining - 1)
      ensures Decoded(s, w, ctx, depth, repeated, Meaning(w, frame.indexed, depth, repeated).value)
    {
      hide Header, Meaning, LegalHead, Allocated, Starts, LeafBytes;
      LeafFits(frame, s, w, ctx, depth, repeated);
    }

    /** The big-endian number after a tag; the promised one where one is promised. */
    method Number(ghost s: Snapshot, tag: Byte, width: nat, ghost hint: Option<int>)
      returns (r: Result<nat, DecodeError>)
      requires pos <= |frame.bytes| && 0 <= s.pos && pos == s.pos + 1 && frame.bytes[s.pos] == tag
      requires hint.Some? ==> 0 <= hint.value < Pow256(width) &&
                              Starts(frame.bytes, s.pos, [tag] + BigEndian(hint.value, width))
      modifies this`pos
      ensures pos <= |frame.bytes|
      ensures r.Ok? ==> pos == s.pos + 1 + width
      ensures r.Ok? ==> r.value < Pow256(width) && Starts(frame.bytes, s.pos, [tag] + BigEndian(r.value, width))
      ensures hint.Some? ==> r.Ok? && r.value == hint.value
    {
      hide BigEndian, Pow256, FromBytes, Starts;
      if hint.Some? {
        ReadBack(frame.bytes, s.pos, tag, width, hint.value);
      }
      r := ReadUInt(width);
      if r.Ok? {
        WriteBack(frame.bytes, s.pos, tag, width);
      }
    }

    method Simple(ghost s: Snapshot, tag: Byte, depth: nat, repeated: bool, ctx: Context, ghost hint: Option<Item>)
      returns (r: Result<Value, DecodeError>, ghost w: Item)
      requires AtTag(s, tag, depth) && Promised(s, hint, ctx, depth, repeated) && IsSimple(ClassOfTag(tag))
      ensures r.Ok? && Decoded(s, w, ctx, depth, repeated, r.value)
      ensures hint.Some? ==> w == hint.value
    {
      hide Fits, LegalHead, LeafBytes, Header, Allocated, ClassOfTag, ClassOf;
      if hint.Some? {
        SimplePromise(frame, s, hint.value, ctx, depth, repeated, tag);
      }
      w := SimpleItem(tag);
      SimpleForm(tag);
      LeafDecoded(s, w, ctx, depth, repeated);
      r := Ok(if tag <= 0x7F then Int(tag)
              else if tag >= 0xE0 then Int(tag - 256)
              else if tag == 0xC0 then Null
              else if tag == 0xC2 then Bool(false)
              else Bool(true));
    }

    method Unsigned(ghost s: Snapshot, tag: Byte, depth: nat, repeated: bool, ctx: Context, ghost hint: Option<Item>)
      returns (r: Result<Value, DecodeError>, ghost w: Item)
      requires AtTag(s, tag, depth) && Promised(s, hint, ctx, depth, repeated) && 0xCC <= tag <= 0xCF
      modifies this
      ensures Accounted()
      ensures r.Ok? ==> Decoded(s, w, ctx, depth, repeated, r.value)
      ensures hint.Some? ==> r.Ok? && w == hint.value
    {
      hide Fits, LegalHead, LeafBytes, Starts, Header, Allocated, BigEndian, Pow256, FromBytes, ClassOfTag, ClassOf,
           SignExtend, Finite32, Finite64;
      var width := WidthAt(tag - 0xCC);
      w := Nil;
      if hint.Some? {
        UnsignedPromise(frame, s, hint.value, ctx, depth, repeated, tag);
      }
      var n := Number(s, tag, width, if hint.Some? then Some(hint.value.n) else None);
      if n.Err? {
        return Err(n.error), w;
      }
      w := UInt(width, n.value);
      UnsignedForm(tag, n.value);
      LeafDecoded(s, w, ctx, depth, repeated);
      r := Ok(Int(n.value));
    }

    method Signed(ghost s: Snapshot, tag: Byte, depth: nat, repeated: bool, ctx: Context, ghost hint: Option<Item>)
      returns (r: Result<Value, DecodeError>, ghost w: Item)
      requires AtTag(s, tag, depth) && Promised(s, hint, ctx, depth, repeated) && 0xD0 <= tag <= 0xD3
      modifies this
      ensures Accounted()
      ensures r.Ok? ==> Decoded(s, w, ctx, depth, repeated, r.value)
      ensures hint.Some? ==> r.Ok? && w == hint.value
    {
      hide Fits, LegalHead, LeafBytes, Starts, Header, Allocated, BigEndian, Pow256, FromBytes, ClassOfTag, ClassOf,
           SignExtend, Finite32, Finite64;
      var width := WidthAt(tag - 0xD0);
      w := Nil;
      if hint.Some? {
        SignedPromise(frame, s, hint.value, ctx, depth, repeated, tag);
      }
      var v := Number(s, tag, width, if hint.Some? then Some(Unsign(hint.value.n, width)) else None);
      if v.Err? {
        return Err(v.error), w;
      }
      var n := SignExtend(v.value, width);
      w := SInt(width, n);
      SignedForm(tag, v.value);
      LeafDecoded(s, w, ctx, depth, repeated);
      r := Ok(Int(n));
    }

    method Floating(ghost s: Snapshot, tag: Byte, depth: nat, repeated: bool, ctx: Context, ghost hint: Option<Item>)
      returns (r: Result<Value, DecodeError>, ghost w: Item)
      requires AtTag(s, tag, depth) && Promised(s, hint, ctx, depth, repeated) && (tag == 0xCA || tag == 0xCB)
      modifies this
      ensures Accounted()
      ensures r.Ok? ==> Decoded(s, w, ctx, depth, repeated, r.value)
      ensures hint.Some? ==> r.Ok? && w == hint.value
    {
      hide Fits, LegalHead, LeafBytes, Starts, Header, Allocated, BigEndian, Pow256, FromBytes, ClassOfTag, ClassOf,
           SignExtend, Finite32, Finite64;
      var width := if tag == 0xCA then 4 else 8;
      w := Nil;
      if hint.Some? {
        FloatPromise(frame, s, hint.value, ctx, depth, repeated, tag);
      }
      var bits := Number(s, tag, width, if hint.Some? then Some(hint.value.bits) else None);
      if bits.Err? {
        return Err(bits.error), w;
      }
      w := if tag == 0xCA then F32(bits.value) else F64(bits.value);
      if !(if tag == 0xCA then Finite32(bits.value) else Finite64(bits.value)) {
        return Err(NonFinite), w;
      }
      FloatForm(tag, bits.value);
      LeafDecoded(s, w, ctx, depth, repeated);
      r := Ok(Float(tag == 0xCB, bits.value));
    }

    // ---- Text and binary data ----

    /** The count of a sized item, in its tag (width 0) or in the bytes after it. */
    method Size(ghost s: Snapshot, tag: Byte, width: nat, ghost hint: Option<int>) returns (r: Result<nat, DecodeError>)
      requires pos <= |frame.bytes| && 0 <= s.pos && pos == s.pos + 1 && frame.bytes[s.pos] == tag
      requires hint.Some? ==> CountAgrees(tag, width, hint.value) &&
                              Starts(frame.bytes, s.pos, CountBytes(tag, width, hint.value))
      modifies this`pos
      ensures pos <= |frame.bytes|
      ensures r.Ok? ==> CountAgrees(tag, width, r.value) && Starts(frame.bytes, s.pos, CountBytes(tag, width, r.value))
      ensures r.Ok? ==> pos == s.pos + |CountBytes(tag, width, r.value)|
      ensures hint.Some? ==> r.Ok? && r.value == hint.value
    {
      hide BigEndian, Pow256, FromBytes;
      if width == 0 {
        return Ok(TagCount(tag));
      }
      r := Number(s, tag, width, hint);
    }

    method TextItem(ghost s: Snapshot, tag: Byte, width: nat, depth: nat, repeated: bool, ctx: Context,
                    ghost hint: Option<Item>)
      returns (r: Result<Value, DecodeError>, ghost w: Item)
      requires AtTag(s, tag, depth) && Promised(s, hint, ctx, depth, repeated) && ClassOfTag(tag) == TTxt(width)
      modifies this
      ensures Accounted()
      ensures r.Ok? ==> Decoded(s, w, ctx, depth, repeated, r.value)
      ensures hint.Some? ==> r.Ok? && w == hint.value
    {
      hide Fits, LegalHead, LeafBytes, Starts, Header, Allocated, BigEndian, Pow256, FromBytes, ClassOfTag, ValidUtf8,
           FitsArray, FitsMap;
      w := Nil;
      if hint.Some? {
        SizedPromise(frame, s, hint.value, ctx, depth, repeated, tag);
        TextFits(frame, s, hint.value, ctx, depth, repeated);
        StartsMeans(frame.bytes, s.pos + |Header(hint.value)|, hint.value.text);
      }
      var n := Size(s, tag, width, if hint.Some? then Some(|hint.value.text|) else None);
      if n.Err? {
        return Err(n.error), w;
      }
      var text := Take(n.value);
      if text.Err? {
        return Err(text.error), w;
      }
      w := Txt(width, text.value);
      SizedForm(tag, w);
      if !ValidUtf8(text.value) {
        return Err(InvalidUtf8), w;
      }
      TextRead(s, w, tag);
      LeafDecoded(s, w, ctx, depth, repeated);
      r := Ok(Str(text.value));
    }

    lemma TextRead(s: Snapshot, w: Item, tag: Byte)
      requires w.Txt? && LegalHead(w) && Starts(frame.bytes, s.pos, Header(w)) && 0 <= s.pos
      requires s.pos + |Header(w)| + |w.text| <= |frame.bytes|
      requires w.text == frame.bytes[s.pos + |Header(w)|..s.pos + |Header(w)| + |w.text|]
      ensures Starts(frame.bytes, s.pos, LeafBytes(w)) && |LeafBytes(w)| == |Header(w)| + |w.text|
    {
      hide Header, LegalHead;
      StartsSplit(frame.bytes, s.pos, Header(w), w.text);
    }

    lemma StartsMeans(bytes: seq<Byte>, pos: int, e: seq<Byte>)
      requires Starts(bytes, pos, e)
      ensures 0 <= pos && pos + |e| <= |bytes| && bytes[pos..pos + |e|] == e
    {
    }

    /** Charges and records n bytes of binary data after `used` earlier ones. */
    method Retain(n: nat, ctx: Context, ghost used: int) returns (ok: bool)
      requires Accounted() && allocationBytes == Allocated(frame, used, binaries)
      requires fieldCapacity == Capacity(|binaries.fields|) && spanCapacity == Capacity(|binaries.spans|)
      modifies this`allocationRemaining, this`allocationBytes, this`binaries, this`fieldCapacity, this`spanCapacity
      ensures Accounted()
      ensures ok ==> binaries == old(binaries).Then(BinaryAt(ctx))
      ensures ok ==> allocationBytes == Allocated(frame, used + n, binaries)
      ensures ok ==> fieldCapacity == Capacity(|binaries.fields|) && spanCapacity == Capacity(|binaries.spans|)
      ensures Allocated(frame, used + n, old(binaries).Then(BinaryAt(ctx))) <= frame.allocationBudget ==> ok
    {
      hide Allocated, Capacity, RecordCost, Times;
      AllocatedStep(frame, used, n, binaries, ctx);
      RecordCostNonNegative(frame, binaries, ctx);
      TimesIsProduct(n, frame.valueSize);
      if n * frame.valueSize > USIZE_MAX {
        return false;
      }
      ok := Charge(n * frame.valueSize);
      if ok {
        ok := Record(ctx);
      }
    }

    method BinaryItem(ghost s: Snapshot, tag: Byte, width: nat, depth: nat, repeated: bool, ctx: Context,
                      ghost hint: Option<Item>)
      returns (r: Result<Value, DecodeError>, ghost w: Item)
      requires AtTag(s, tag, depth) && Promised(s, hint, ctx, depth, repeated) && ClassOfTag(tag) == TBin(width)
      modifies this
      ensures Accounted()
      ensures r.Ok? ==> Decoded(s, w, ctx, depth, repeated, r.value)
      ensures hint.Some? ==> r.Ok? && w == hint.value
    {
      hide Fits, LegalHead, Starts, Header, Allocated, BigEndian, Pow256, ClassOfTag, Capacity, CountBytes, BinaryAt,
           After;
      w := Nil;
      if hint.Some? {
        SizedPromise(frame, s, hint.value, ctx, depth, repeated, tag);
        BinaryFits(frame, s, hint.value, ctx, depth, repeated);
        StartsMeans(frame.bytes, s.pos + |Header(hint.value)|, hint.value.data);
      }
      var n := Size(s, tag, width, if hint.Some? then Some(|hint.value.data|) else None);
      if n.Err? {
        return Err(n.error), w;
      }
      ghost var used := frame.binaryBudget - binaryRemaining;
      if n.value > binaryRemaining {
        return Err(Budget), w;
      }
      binaryRemaining := binaryRemaining - n.value;
      var data := Take(n.value);
      if data.Err? {
        return Err(data.error), w;
      }
      var retained := Retain(n.value, ctx, used);
      if !retained {
        return Err(Budget), w;
      }
      w := Bin(width, data.value);
      SizedForm(tag, w);
      MeansStarts(frame.bytes, s.pos + |Header(w)|, w.data);
      BinaryFits(frame, s, w, ctx, depth, repeated);
      ValidIsAffordable();
      r := Ok(Array(seq(n.value, i requires 0 <= i < n.value => Int(data.value[i]))));
    }

    lemma MeansStarts(bytes: seq<Byte>, pos: int, e: seq<Byte>)
      requires 0 <= pos && pos + |e| <= |bytes| && bytes[pos..pos + |e|] == e
      ensures Starts(bytes, pos, e)
    {
    }

    // ---- Containers ----

    ghost predicate PromisedItems(s: Snapshot, hint: Option<seq<Item>>, n: nat, ctx: Context, depth: nat) {
      hint.Some? ==> |hint.value| == n && FitsArray(frame, s, hint.value, ctx, depth)
    }

    ghost predicate DecodedItems(s: Snapshot, ws: seq<Item>, ctx: Context, depth: nat, values: seq<Value>)
      reads this
    {
      && Valid() && FitsArray(frame, s, ws, ctx, depth) && Snap() == ArrayState(frame, s, ws, ctx)
      && MeaningAll(ws, frame.indexed, depth) == Some(values)
    }

    lemma NoItems(ctx: Context, depth: nat)
      requires Valid()
      ensures DecodedItems(Snap(), [], ctx, depth, [])
    {
      hide Allocated;
      ThenAssociative(binaries, NO_BINARY, NO_BINARY);
      ValidIsAffordable();
    }

    lemma PromisedItem(s: Snapshot, ws: seq<Item>, all: seq<Item>, ctx: Context, depth: nat)
      requires |ws| < |all| && ws == all[..|ws|] && FitsArray(frame, s, all, ctx, depth)
      ensures LegalAll(ws)
      ensures Fits(frame, ArrayState(frame, s, ws, ctx), all[|ws|], ctx.ArrayChild(|ws|), depth + 1, false)
    {
      hide FitsArray, Fits, Legal, LegalAll, ArrayState, Meaning, MeaningAll;
      ArrayPrefixFits(frame, s, all, ctx, depth, |ws|);
      ArrayPrefixFits(frame, s, all, ctx, depth, |ws| + 1);
      assert all[..|ws| + 1] == ws + [all[|ws|]];
      FitsArrayIsLegal(s, ws, ctx, depth);
      ArrayLastFits(frame, s, ws, all[|ws|], ctx, depth);
    }

    lemma FitsArrayIsLegal(s: Snapshot, ws: seq<Item>, ctx: Context, depth: nat)
      requires FitsArray(frame, s, ws, ctx, depth)
      ensures LegalAll(ws)
    {
    }

    lemma NextItem(s: Snapshot, ws: seq<Item>, values: seq<Value>, w: Item, v: Value, ctx: Context, depth: nat)
      requires FitsArray(frame, s, ws, ctx, depth) && LegalAll(ws)
      requires MeaningAll(ws, frame.indexed, depth) == Some(values)
      requires Decoded(ArrayState(frame, s, ws, ctx), w, ctx.ArrayChild(|ws|), depth + 1, false, v)
      ensures DecodedItems(s, ws + [w], ctx, depth, values + [v])
    {
      hide FitsArray, Allocated, ArrayState, After, Legal, LegalAll, MeaningAll, Meaning;
      FitsIsLegal(ArrayState(frame, s, ws, ctx), w, ctx.ArrayChild(|ws|), depth + 1, false);
      ArrayGrows(frame, s, ws, w, ctx, depth);
      ArrayStateStep(frame, s, ws, w, ctx);
      SnocFacts(ws, w, frame.indexed, depth);
    }

    lemma FitsIsLegal(s: Snapshot, w: Item, ctx: Context, depth: nat, repeated: bool)
      requires Fits(frame, s, w, ctx, depth, repeated)
      ensures Legal(w)
    {
    }

    method Items(n: nat, depth: nat, ctx: Context, ghost hint: Option<seq<Item>>)
      returns (r: Result<seq<Value>, DecodeError>, ghost ws: seq<Item>)
      requires Valid() && PromisedItems(Snap(), hint, n, ctx, depth)
      modifies this
      ensures Accounted()
      ensures r.Ok? ==> |ws| == n && DecodedItems(old(Snap()), ws, ctx, depth, r.value)
      ensures hint.Some? ==> r.Ok? && ws == hint.value
      decreases remaining, 1
    {
      hide FitsArray, Fits, Allocated, ArrayState, After, MeaningAll, Legal, LegalAll;
      ghost var s := Snap();
      var values: seq<Value> := [];
      ws := [];
      NoItems(ctx, depth);
      for index := 0 to n
        invariant |ws| == index && DecodedItems(s, ws, ctx, depth, values)
        invariant hint.Some? ==> ws == hint.value[..index]
        invariant remaining <= s.remaining
      {
        FitsArrayIsLegal(s, ws, ctx, depth);
        if hint.Some? {
          PromisedItem(s, ws, hint.value, ctx, depth);
        }
        ghost var before := Snap();
        var item;
        ghost var w;
        item, w := Value(depth + 1, false, ctx.ArrayChild(index), if hint.Some? then Some(hint.value[index]) else None);
        if item.Err? {
          return Err(item.error), ws;
        }
        SpendsNodes(before, w, ctx.ArrayChild(index), depth + 1, false, item.value);
        NextItem(s, ws, values, w, item.value, ctx, depth);
        ws := ws + [w];
        values := values + [item.value];
      }
      assert hint.Some? ==> hint.value[..n] == hint.value;
      r := Ok(values);
    }

    lemma SpendsNodes(s: Snapshot, w: Item, ctx: Context, depth: nat, repeated: bool, v: Value)
      requires Decoded(s, w, ctx, depth, repeated, v)
      ensures remaining < s.remaining
    {
      hide Allocated, Meaning, Header;
    }

    lemma PromisedArray(s: Snapshot, w: Item, ctx: Context, depth: nat, repeated: bool)
      requires w.Arr? && LegalHead(w) && depth <= MAX_DEPTH && Fits(frame, s, w, ctx, depth, repeated)
      ensures FitsArray(frame, Opened(s, Header(w)), w.items, ctx, depth)
      ensures |w.items| <= s.remaining - 1 && |w.items| <= |frame.bytes| - s.pos - |Header(w)|
    {
      hide Header, LegalHead, Allocated;
      ArrayFits(frame, s, w, ctx, depth, repeated);
    }

    lemma ArrayDecoded(s: Snapshot, w: Item, ctx: Context, depth: nat, repeated: bool, values: seq<Value>)
      requires w.Arr? && LegalHead(w) && depth <= MAX_DEPTH && Starts(frame.bytes, s.pos, Header(w))
      requires DecodedItems(Opened(s, Header(w)), w.items, ctx, depth, values)
      ensures Decoded(s, w, ctx, depth, repeated, Array(values))
    {
      hide Header, LegalHead, Allocated, Starts, FitsArray, Fits, ArrayState, After, MeaningAll;
      ArrayFits(frame, s, w, ctx, depth, repeated);
      FitsArrayIsLegal(Opened(s, Header(w)), w.items, ctx, depth);
      FitsIsLegal(s, w, ctx, depth, repeated);
    }

    method ArrayItem(ghost s: Snapshot, tag: Byte, width: nat, depth: nat, repeated: bool, ctx: Context,
                     ghost hint: Option<Item>)
      returns (r: Result<Value, DecodeError>, ghost w: Item)
      requires AtTag(s, tag, depth) && Promised(s, hint, ctx, depth, repeated) && ClassOfTag(tag) == TArr(width)
      modifies this
      ensures Accounted()
      ensures r.Ok? ==> Decoded(s, w, ctx, depth, repeated, r.value)
      ensures hint.Some? ==> r.Ok? && w == hint.value
      decreases remaining, 3
    {
      hide Fits, FitsArray, LegalHead, Starts, Header, Allocated, BigEndian, Pow256, ClassOfTag, CountBytes, ArrayState,
           After;
      w := Nil;
      if hint.Some? {
        SizedPromise(frame, s, hint.value, ctx, depth, repeated, tag);
        PromisedArray(s, hint.value, ctx, depth, repeated);
      }
      var n := Size(s, tag, width, if hint.Some? then Some(|hint.value.items|) else None);
      if n.Err? {
        return Err(n.error), w;
      }
      if n.value > remaining || n.value > |frame.bytes| - pos {
        return Err(Budget), w;
      }
      var values;
      ghost var ws;
      values, ws := Items(n.value, depth, ctx, if hint.Some? then Some(hint.value.items) else None);
      if values.Err? {
        return Err(values.error), w;
      }
      w := Arr(width, ws);
      SizedForm(tag, w);
      ArrayDecoded(s, w, ctx, depth, repeated, values.value);
      r := Ok(Array(values.value));
    }

    ghost predicate PromisedEntries(s: Snapshot, hint: Option<seq<Item>>, n: nat, ctx: Context, depth: nat,
                                    repeated: bool) {
      hint.Some? ==> |hint.value| == 2 * n && FitsMap(frame, s, hint.value, ctx, depth, repeated)
    }

    ghost predicate DecodedEntries(s: Snapshot, ws: seq<Item>, ctx: Context, depth: nat, repeated: bool,
                                   fields: map<Text, Value>)
      reads this
    {
      && Valid() && FitsMap(frame, s, ws, ctx, depth, repeated) && Snap() == MapState(frame, s, ws, ctx)
      && MeaningMap(ws, frame.indexed, depth, repeated) == Some(fields)
    }

    lemma NoEntries(ctx: Context, depth: nat, repeated: bool)
      requires Valid()
      ensures DecodedEntries(Snap(), [], ctx, depth, repeated, map[])
    {
      hide Allocated;
      ThenAssociative(binaries, NO_BINARY, NO_BINARY);
      ValidIsAffordable();
    }

    lemma FitsMapIsLegal(s: Snapshot, ws: seq<Item>, ctx: Context, depth: nat, repeated: bool)
      requires FitsMap(frame, s, ws, ctx, depth, repeated)
      ensures LegalAll(ws) && |ws| % 2 == 0
    {
    }

    lemma PromisedEntry(s: Snapshot, ws: seq<Item>, all: seq<Item>, ctx: Context, depth: nat, repeated: bool)
      requires |ws| + 1 < |all| && |ws| % 2 == 0 && ws == all[..|ws|] && FitsMap(frame, s, all, ctx, depth, repeated)
      ensures var key, value := all[|ws|], all[|ws| + 1];
              && LegalAll(ws) && Legal(key) && KeyText(key, frame.indexed).Some?
              && Fits(frame, MapState(frame, s, ws, ctx), key, Other, depth + 1, false)
              && var k := KeyText(key, frame.indexed).value;
              && Fits(frame, KeyState(frame, s, ws, key, ctx), value, ctx.MapChild(k), depth + 1,
                 IsMeta(frame.indexed, depth, k))
              && MapStep(MeaningMap(ws, frame.indexed, depth, repeated), key, value, frame.indexed, depth,
                 repeated).Some?
    {
      hide FitsMap, Fits, KeyText, MeaningMap, MapStep, KeyState, MapState, Legal, LegalAll;
      var key, value := all[|ws|], all[|ws| + 1];
      FitsMapIsLegal(s, all, ctx, depth, repeated);
      MapPrefixFits(frame, s, all, ctx, depth, repeated, |ws| + 2);
      assert all[..|ws| + 2] == ws + [key, value];
      MapInitFits(frame, s, ws, key, value, ctx, depth, repeated);
      FitsMapIsLegal(s, ws, ctx, depth, repeated);
      MapLastFits(frame, s, ws, key, value, ctx, depth, repeated);
    }

    lemma NextEntry(s: Snapshot, ws: seq<Item>, fields: map<Text, Value>, key: Item, value: Item, v: Value,
                    next: map<Text, Value>, ctx: Context, depth: nat, repeated: bool)
      requires FitsMap(frame, s, ws, ctx, depth, repeated) && LegalAll(ws)
      requires MeaningMap(ws, frame.indexed, depth, repeated) == Some(fields)
      requires Legal(key) && KeyText(key, frame.indexed).Some?
      requires Fits(frame, MapState(frame, s, ws, ctx), key, Other, depth + 1, false)
      requires var k := KeyText(key, frame.indexed).value;
               && Decoded(KeyState(frame, s, ws, key, ctx), value, ctx.MapChild(k), depth + 1,
                  IsMeta(frame.indexed, depth, k), v)
               && AddField(fields, k, v, repeated) == Some(next)
      ensures DecodedEntries(s, ws + [key, value], ctx, depth, repeated, next)
    {
      hide FitsMap, Fits, Allocated, KeyText, MapState, After, AddField, Meaning, MeaningMap, Legal, LegalAll;
      var k := KeyText(key, frame.indexed).value;
      FitsMapIsLegal(s, ws, ctx, depth, repeated);
      FitsIsLegal(KeyState(frame, s, ws, key, ctx), value, ctx.MapChild(k), depth + 1, IsMeta(frame.indexed, depth, k));
      MapGrows(frame, s, ws, key, value, ctx, depth, repeated);
      MapStateStep(frame, s, ws, key, value, ctx);
      EntryFacts(ws, key, value, frame.indexed, depth, repeated);
    }

    /** The text of a decoded key, where it is one. */
    method KeyOf(v: Value) returns (r: Result<Text, DecodeError>)
      ensures r.Ok? <==> (v.Str? && !frame.indexed) || (v.Int? && frame.indexed && v.n >= 0)
      ensures r.Ok? ==> r.value == if v.Str? then v.text else INDEX_PREFIX + Decimal(v.n)
    {
      match v
      case Str(text) =>
        r := if !frame.indexed then Ok(text) else Err(UnsupportedKey);
      case Int(n) =>
        r := if frame.indexed && n >= 0 then Ok(INDEX_PREFIX + Decimal(n)) else Err(UnsupportedKey);
      case _ =>
        r := Err(UnsupportedKey);
    }

    lemma KeyOfDecoded(s: Snapshot, key: Item, ctx: Context, depth: nat, v: Value)
      requires Decoded(s, key, ctx, depth, false, v)
      ensures Legal(key) && Fits(frame, s, key, ctx, depth, false) && Snap() == After(frame, s, key, ctx)
      ensures KeyText(key, frame.indexed).Some? <==> (v.Str? && !frame.indexed) || (v.Int? && frame.indexed && v.n >= 0)
      ensures KeyText(key, frame.indexed).Some? ==>
                KeyText(key, frame.indexed).value == if v.Str? then v.text else INDEX_PREFIX + Decimal(v.n)
    {
      hide Allocated, After, KeyText, Decimal;
      FitsIsLegal(s, key, ctx, depth, false);
      KeyMeans(key, frame.indexed, depth);
    }

    method Entries(n: nat, depth: nat, repeated: bool, ctx: Context, ghost hint: Option<seq<Item>>)
      returns (r: Result<map<Text, Value>, DecodeError>, ghost ws: seq<Item>)
      requires Valid() && PromisedEntries(Snap(), hint, n, ctx, depth, repeated)
      modifies this
      ensures Accounted()
      ensures r.Ok? ==> |ws| == 2 * n && DecodedEntries(old(Snap()), ws, ctx, depth, repeated, r.value)
      ensures hint.Some? ==> r.Ok? && ws == hint.value
      decreases remaining, 1
    {
      hide FitsMap, Fits, Allocated, MapState, KeyState, After, MeaningMap, Legal, LegalAll, KeyText;
      ghost var s := Snap();
      var fields: map<Text, Value> := map[];
      ws := [];
      NoEntries(ctx, depth, repeated);
      for i := 0 to n
        invariant |ws| == 2 * i && DecodedEntries(s, ws, ctx, depth, repeated, fields)
        invariant hint.Some? ==> ws == hint.value[..2 * i]
        invariant remaining <= s.remaining
      {
        var next;
        ghost var added;
        next, added := Entry(depth, repeated, ctx, fields, s, ws, hint);
        if next.Err? {
          return Err(next.error), ws;
        }
        ws := ws + added;
        fields := next.value;
      }
      assert hint.Some? ==> hint.value[..2 * n] == hint.value;
      r := Ok(fields);
    }

    /** One key, its value, and the rule for a key that is already there. */
    method Entry(depth: nat, repeated: bool, ctx: Context, fields: map<Text, Value>,
                 ghost s: Snapshot, ghost ws: seq<Item>, ghost hint: Option<seq<Item>>)
      returns (r: Result<map<Text, Value>, DecodeError>, ghost added: seq<Item>)
      requires DecodedEntries(s, ws, ctx, depth, repeated, fields)
      requires hint.Some? ==> |ws| + 1 < |hint.value| && ws == hint.value[..|ws|] &&
                              FitsMap(frame, s, hint.value, ctx, depth, repeated)
      modifies this
      ensures Accounted()
      ensures r.Ok? ==> |added| == 2 && DecodedEntries(s, ws + added, ctx, depth, repeated, r.value)
      ensures r.Ok? ==> remaining <= old(remaining)
      ensures hint.Some? ==> r.Ok? && ws + added == hint.value[..|ws| + 2]
      decreases remaining, 0, 1
    {
      hide FitsMap, Fits, Allocated, MapState, After, MeaningMap, Meaning, Legal, LegalAll, KeyText, Decimal;
      added := [];
      FitsMapIsLegal(s, ws, ctx, depth, repeated);
      ghost var promised: seq<Item> := [];
      if hint.Some? {
        PromisedEntry(s, ws, hint.value, ctx, depth, repeated);
        promised := [hint.value[|ws|], hint.value[|ws| + 1]];
        assert hint.value[..|ws| + 2] == ws + promised;
      }
      var keyValue;
      ghost var key;
      ghost var before := Snap();
      keyValue, key := Value(depth + 1, false, Other, if hint.Some? then Some(promised[0]) else None);
      if keyValue.Err? {
        return Err(keyValue.error), added;
      }
      SpendsNodes(before, key, Other, depth + 1, false, keyValue.value);
      KeyOfDecoded(MapState(frame, s, ws, ctx), key, Other, depth + 1, keyValue.value);
      var k := KeyOf(keyValue.value);
      if k.Err? {
        return Err(k.error), added;
      }
      var metadata := !frame.indexed && depth == 2 && k.value == META;
      var value;
      ghost var w;
      ghost var middle := Snap();
      value, w := Value(depth + 1, metadata, ctx.MapChild(k.value), if hint.Some? then Some(promised[1]) else None);
      if value.Err? {
        return Err(value.error), added;
      }
      SpendsNodes(middle, w, ctx.MapChild(k.value), depth + 1, metadata, value.value);
      added := [key, w];
      if k.value in fields {
        if !(repeated && value.value.Str? && fields[k.value] == value.value) {
          return Err(DuplicateKey), added;
        }
        r := Ok(fields);
      } else {
        r := Ok(fields[k.value := value.value]);
      }
      NextEntry(s, ws, fields, key, w, value.value, r.value, ctx, depth, repeated);
    }

    lemma PromisedMap(s: Snapshot, w: Item, ctx: Context, depth: nat, repeated: bool)
      requires w.Map? && LegalHead(w) && depth <= MAX_DEPTH && Fits(frame, s, w, ctx, depth, repeated)
      ensures |w.items| % 2 == 0 && FitsMap(frame, Opened(s, Header(w)), w.items, ctx, depth, repeated)
      ensures |w.items| <= s.remaining - 1 && |w.items| <= |frame.bytes| - s.pos - |Header(w)|
    {
      hide Header, Allocated;
      MapFits(frame, s, w, ctx, depth, repeated);
    }

    lemma MapDecoded(s: Snapshot, w: Item, ctx: Context, depth: nat, repeated: bool, fields: map<Text, Value>)
      requires w.Map? && LegalHead(w) && |w.items| % 2 == 0 && depth <= MAX_DEPTH &&
               Starts(frame.bytes, s.pos, Header(w))
      requires DecodedEntries(Opened(s, Header(w)), w.items, ctx, depth, repeated, fields)
      ensures Decoded(s, w, ctx, depth, repeated, Object(fields))
    {
      hide Header, LegalHead, Allocated, Starts, FitsMap, Fits, MapState, After, MeaningMap;
      MapFits(frame, s, w, ctx, depth, repeated);
      FitsMapIsLegal(Opened(s, Header(w)), w.items, ctx, depth, repeated);
      FitsIsLegal(s, w, ctx, depth, repeated);
    }

    method MapItem(ghost s: Snapshot, tag: Byte, width: nat, depth: nat, repeated: bool, ctx: Context,
                   ghost hint: Option<Item>)
      returns (r: Result<Value, DecodeError>, ghost w: Item)
      requires AtTag(s, tag, depth) && Promised(s, hint, ctx, depth, repeated) && ClassOfTag(tag) == TMap(width)
      modifies this
      ensures Accounted()
      ensures r.Ok? ==> Decoded(s, w, ctx, depth, repeated, r.value)
      ensures hint.Some? ==> r.Ok? && w == hint.value
      decreases remaining, 3
    {
      hide Fits, FitsMap, LegalHead, Starts, Header, Allocated, BigEndian, Pow256, ClassOfTag, CountBytes, MapState,
           After;
      w := Nil;
      if hint.Some? {
        SizedPromise(frame, s, hint.value, ctx, depth, repeated, tag);
        PromisedMap(s, hint.value, ctx, depth, repeated);
      }
      var n := Size(s, tag, width, if hint.Some? then Some(|hint.value.items| / 2) else None);
      if n.Err? {
        return Err(n.error), w;
      }
      if n.value > remaining / 2 || n.value > (|frame.bytes| - pos) / 2 {
        return Err(Budget), w;
      }
      var fields;
      ghost var ws;
      fields, ws := Entries(n.value, depth, repeated, ctx, if hint.Some? then Some(hint.value.items) else None);
      if fields.Err? {
        return Err(fields.error), w;
      }
      w := Map(width, ws);
      SizedForm(tag, w);
      MapDecoded(s, w, ctx, depth, repeated, fields.value);
      r := Ok(Object(fields.value));
    }

    // ---- Any item ----

    lemma PromisedTag(s: Snapshot, w: Item, ctx: Context, depth: nat, repeated: bool)
      requires Fits(frame, s, w, ctx, depth, repeated)
      ensures 0 <= s.pos < |frame.bytes| && ClassOfTag(frame.bytes[s.pos]) != TBad && depth <= MAX_DEPTH &&
              s.remaining >= 1
    {
      hide ClassOfTag, Fits;
      PromisedHead(frame, s, w, ctx, depth, repeated);
    }

    /** With a promised item the decoder returns exactly its meaning; without one,
        whatever it accepts is an item that fits. */
    method Value(depth: nat, repeated: bool, ctx: Context, ghost hint: Option<Item>)
      returns (r: Result<Value, DecodeError>, ghost w: Item)
      requires Valid() && Promised(Snap(), hint, ctx, depth, repeated)
      modifies this
      ensures Accounted()
      ensures r.Ok? ==> Decoded(old(Snap()), w, ctx, depth, repeated, r.value)
      ensures hint.Some? ==> r.Ok? && w == hint.value
      decreases remaining, 0, 0
    {
      hide Fits, Allocated, Meaning, After;
      w := Nil;
      ghost var s := Snap();
      if hint.Some? {
        PromisedTag(s, hint.value, ctx, depth, repeated);
      }
      if depth > MAX_DEPTH || remaining == 0 {
        return Err(Budget), w;
      }
      remaining := remaining - 1;
      var read := ReadUInt(1);
      if read.Err? {
        return Err(read.error), w;
      }
      var tag: Byte := frame.bytes[pos - 1];
      assert read.value == tag by {
        assert frame.bytes[pos - 1..pos] == [tag];
        assert [tag][..0] == [];
      }
      assert AtTag(s, tag, depth);
      if tag <= 0x7F || 0xE0 <= tag || tag == 0xC0 || tag == 0xC2 || tag == 0xC3 {
        r, w := Simple(s, tag, depth, repeated, ctx, hint);
      } else if 0xCC <= tag <= 0xCF {
        r, w := Unsigned(s, tag, depth, repeated, ctx, hint);
      } else if 0xD0 <= tag <= 0xD3 {
        r, w := Signed(s, tag, depth, repeated, ctx, hint);
      } else if tag == 0xCA || tag == 0xCB {
        r, w := Floating(s, tag, depth, repeated, ctx, hint);
      } else if 0xA0 <= tag <= 0xBF {
        r, w := TextItem(s, tag, 0, depth, repeated, ctx, hint);
      } else if 0xD9 <= tag <= 0xDB {
        r, w := TextItem(s, tag, WidthAt(tag - 0xD9), depth, repeated, ctx, hint);
      } else if 0x90 <= tag <= 0x9F {
        r, w := ArrayItem(s, tag, 0, depth, repeated, ctx, hint);
      } else if tag == 0xDC || tag == 0xDD {
        r, w := ArrayItem(s, tag, if tag == 0xDC then 2 else 4, depth, repeated, ctx, hint);
      } else if 0x80 <= tag <= 0x8F {
        r, w := MapItem(s, tag, 0, depth, repeated, ctx, hint);
      } else if tag == 0xDE || tag == 0xDF {
        r, w := MapItem(s, tag, if tag == 0xDE then 2 else 4, depth, repeated, ctx, hint);
      } else if 0xC4 <= tag <= 0xC6 {
        r, w := BinaryItem(s, tag, WidthAt(tag - 0xC4), depth, repeated, ctx, hint);
      } else {
        return Err(UnsupportedTag), w;
      }
    }
  }

  // ---- A whole payload ----

  /** The payload is exactly one item that fits the budgets. */
  ghost predicate Reads(f: Frame, nodes: nat, w: Item) {
    && Fits(f, Snapshot(0, nodes, f.binaryBudget, NO_BINARY), w, if f.indexed then Other else Root, 0, false)
    && f.bytes == Encode(w)
  }

  method DecodePayload(f: Frame, nodes: nat)
    returns (r: Result<Value, DecodeError>, binaries: Provenance, charged: nat, ghost w: Item)
    requires f.Sane()
    ensures r.Ok? <==> exists item :: Reads(f, nodes, item)
    ensures r.Ok? ==> Reads(f, nodes, w) && Meaning(w, f.indexed, 0, false) == Some(r.value)
    ensures r.Ok? ==> binaries == Binaries(w, f.indexed, if f.indexed then Other else Root)
    ensures r.Ok? ==> charged == Allocated(f, BinBytes(w), binaries) && charged <= f.allocationBudget
    ensures r.Ok? ==> forall item :: Reads(f, nodes, item) ==> item == w
  {
    hide Allocated, Meaning, Header;
    var decoder := new Decoder(f, nodes);
    ghost var hint: Option<Item> := None;
    if item :| Reads(f, nodes, item) {
      hint := Some(item);
    }
    r, w := decoder.Value(0, false, if f.indexed then Other else Root, hint);
    binaries, charged := decoder.binaries, decoder.allocationBytes;
    if r.Err? {
      return;
    }
    ThenAssociative(NO_BINARY, binaries, NO_BINARY);
    ThenAssociative(Binaries(w, f.indexed, if f.indexed then Other else Root), NO_BINARY, NO_BINARY);
    assert f.bytes[0..|Encode(w)|] == Encode(w);
    if decoder.pos != |f.bytes| {
      assert hint.None?;
      r := Err(TrailingBytes);
      return;
    }
    assert f.bytes[0..|f.bytes|] == f.bytes;
    assert Reads(f, nodes, w);
    forall item | Reads(f, nodes, item)
      ensures item == w
    {
      OneReading(f, nodes, item, w);
    }
  }

  lemma OneReading(f: Frame, nodes: nat, v: Item, w: Item)
    requires Reads(f, nodes, v) && Reads(f, nodes, w)
    ensures v == w
  {
    hide Encode, Meaning, Affordable, Starts;
    assert Encode(v) + [] == Encode(w) + [];
    UniqueReading(v, w, [], []);
  }
}
