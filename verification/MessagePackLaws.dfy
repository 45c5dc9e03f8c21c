/** The wire format spelled out: the bytes of every form, what an item at a place of the
    payload stands for, and the limits of the decoder in plain numbers. */
module MessagePackLaws {
  import opened Basics
  import opened Wrappers
  import opened MessagePack
  import opened DecoderBudget
  import opened MessagePackDecoder
  import opened BinaryProvenance

  // ---- Decimal numbers ----

  /** The number that the digits write. */
  function Value10(s: Text, before: nat): int {
    if s == [] then before else Value10(s[1..], 10 * before + (if s[0] >= 48 then s[0] - 48 else 0))
  }

  ghost predicate DigitsOf(s: Text, n: nat) {
    s != [] && (forall i :: 0 <= i < |s| ==> '0' as int <= s[i] <= '9' as int) && Value10(s, 0) == n
  }

  /** Without leading zeros. */
  ghost predicate DecimalOf(s: Text, n: nat) {
    DigitsOf(s, n) && (s[0] == '0' as int ==> |s| == 1)
  }

  lemma {:induction false} Value10Append(s: Text, d: Byte, before: nat)
    requires 48 <= d <= 57
    ensures Value10(s + [d], before) == 10 * Value10(s, before) + (d - 48)
    decreases |s|
  {
    if s == [] {
      assert ([] + [d])[1..] == [];
    } else {
      assert (s + [d])[1..] == s[1..] + [d];
      Value10Append(s[1..], d, 10 * before + (if s[0] >= 48 then s[0] - 48 else 0));
    }
  }

  lemma {:induction false} Value10AtLeast(s: Text, before: nat)
    ensures Value10(s, before) >= before
    decreases |s|
  {
    if s != [] {
      Value10AtLeast(s[1..], 10 * before + (if s[0] >= 48 then s[0] - 48 else 0));
    }
  }

  /** Each number has one decimal form. */
  lemma {:induction false} DecimalIff(s: Text, n: nat)
    ensures DecimalOf(s, n) <==> s == Decimal(n)
  {
    DecimalDigits(n);
    if DecimalOf(s, n) {
      DecimalIsOne(s, n);
    }
  }

  lemma {:induction false} DecimalDigits(n: nat)
    ensures DecimalOf(Decimal(n), n) && (n > 0 ==> Decimal(n)[0] != 48)
  {
    if n >= 10 {
      DecimalDigits(n / 10);
      Value10Append(Decimal(n / 10), 48 + n % 10, 0);
    } else {
      assert [48 + n][1..] == [];
    }
  }

  lemma {:induction false} DecimalIsOne(s: Text, n: nat)
    requires DecimalOf(s, n)
    ensures s == Decimal(n)
    decreases |s|
  {
    var m := |s| - 1;
    assert s == s[..m] + [s[m]];
    Value10Append(s[..m], s[m], 0);
    Value10AtLeast(s[..m], 0);
    if m > 0 {
      var before := Value10(s[..m], 0);
      DecimalIsOne(s[..m], before);
      assert n == 10 * before + (s[m] - 48);
      Value10AtLeast(s[1..m], s[0] - 48);
      assert s[..m][1..] == s[1..m];
      assert before >= s[0] - 48 >= 1;
    }
  }

  // ---- Text and floats ----

  predicate IsScalar(c: int) {
    0 <= c < 0xD800 || 0xE000 <= c < 0x11_0000
  }

  /** One character in UTF-8, as in section 3 of RFC 3629. */
  function CharBytes(c: int): (r: seq<Byte>)
    requires IsScalar(c)
    ensures |r| > 0
  {
    if c < 0x80 then [c]
    else if c < 0x800 then [0xC0 + c / 0x40, 0x80 + c % 0x40]
    else if c < 0x1_0000 then [0xE0 + c / 0x1000, 0x80 + c / 0x40 % 0x40, 0x80 + c % 0x40]
    else [0xF0 + c / 0x4_0000, 0x80 + c / 0x1000 % 0x40, 0x80 + c / 0x40 % 0x40, 0x80 + c % 0x40]
  }

  ghost predicate IsText(s: seq<Byte>)
    decreases |s|
  {
    s == [] || exists c :: IsScalar(c) && CharBytes(c) <= s && IsText(s[|CharBytes(c)|..])
  }

  function CharLength(b: Byte): nat {
    if b <= 0x7F then 1 else if b <= 0xDF then 2 else if b <= 0xEF then 3 else 4
  }

  lemma CharLengthIs(c: int)
    requires IsScalar(c)
    ensures |CharBytes(c)| == CharLength(CharBytes(c)[0])
  {
  }

  /** The validity test for one character. */
  predicate StartsValid(s: seq<Byte>)
    requires s != []
  {
    if s[0] <= 0x7F then true
    else if 0xC2 <= s[0] <= 0xDF then |s| >= 2 && Continuation(s[1])
    else if 0xE0 <= s[0] <= 0xEF then
      && |s| >= 3 && Continuation(s[1]) && Continuation(s[2])
      && (s[0] == 0xE0 ==> s[1] >= 0xA0)
      && (s[0] == 0xED ==> s[1] <= 0x9F)
    else if 0xF0 <= s[0] <= 0xF4 then
      && |s| >= 4 && Continuation(s[1]) && Continuation(s[2]) && Continuation(s[3])
      && (s[0] == 0xF0 ==> s[1] >= 0x90)
      && (s[0] == 0xF4 ==> s[1] <= 0x8F)
    else false
  }

  lemma CharIsValid(s: seq<Byte>, c: int)
    requires IsScalar(c) && CharBytes(c) <= s
    ensures StartsValid(s) && CharLength(s[0]) == |CharBytes(c)|
  {
    var e := CharBytes(c);
    CharLengthIs(c);
    assert forall i :: 0 <= i < |e| ==> e[i] == s[i];
  }

  lemma TwoBytes(a: int, b: int) returns (c: int)
    requires 0xC2 <= a <= 0xDF && 0x80 <= b <= 0xBF
    ensures IsScalar(c) && CharBytes(c) == [a, b]
  {
    c := (a - 0xC0) * 0x40 + (b - 0x80);
  }

  lemma ThreeBytes(a: int, b: int, d: int) returns (c: int)
    requires 0xE0 <= a <= 0xEF && 0x80 <= b <= 0xBF && 0x80 <= d <= 0xBF
    requires (a == 0xE0 ==> b >= 0xA0) && (a == 0xED ==> b <= 0x9F)
    ensures IsScalar(c) && CharBytes(c) == [a, b, d]
  {
    c := (a - 0xE0) * 0x1000 + (b - 0x80) * 0x40 + (d - 0x80);
    assert c / 0x40 == (a - 0xE0) * 0x40 + (b - 0x80);
  }

  lemma FourBytes(a: int, b: int, d: int, e: int) returns (c: int)
    requires 0xF0 <= a <= 0xF4 && 0x80 <= b <= 0xBF && 0x80 <= d <= 0xBF && 0x80 <= e <= 0xBF
    requires (a == 0xF0 ==> b >= 0x90) && (a == 0xF4 ==> b <= 0x8F)
    ensures IsScalar(c) && CharBytes(c) == [a, b, d, e]
  {
    c := (a - 0xF0) * 0x4_0000 + (b - 0x80) * 0x1000 + (d - 0x80) * 0x40 + (e - 0x80);
    assert c / 0x40 == (a - 0xF0) * 0x1000 + (b - 0x80) * 0x40 + (d - 0x80);
    assert c / 0x1000 == (a - 0xF0) * 0x40 + (b - 0x80);
  }

  lemma ValidIsChar(s: seq<Byte>) returns (c: int)
    requires s != [] && StartsValid(s)
    ensures IsScalar(c) && CharBytes(c) <= s && |CharBytes(c)| == CharLength(s[0]) <= |s|
  {
    if s[0] <= 0x7F {
      c := s[0];
      assert CharBytes(c) == s[..1];
    } else if s[0] <= 0xDF {
      hide CharBytes;
      c := TwoBytes(s[0], s[1]);
      assert [s[0], s[1]] == s[..2];
    } else if s[0] <= 0xEF {
      hide CharBytes;
      c := ThreeBytes(s[0], s[1], s[2]);
      assert [s[0], s[1], s[2]] == s[..3];
    } else {
      hide CharBytes;
      c := FourBytes(s[0], s[1], s[2], s[3]);
      assert [s[0], s[1], s[2], s[3]] == s[..4];
    }
  }

  lemma ValidStep(s: seq<Byte>)
    requires s != []
    ensures ValidUtf8(s) <==> StartsValid(s) && CharLength(s[0]) <= |s| && ValidUtf8(s[CharLength(s[0])..])
  {
  }

  /** The test accepts exactly the encodings of sequences of characters. */
  lemma {:induction false} Utf8Iff(s: seq<Byte>)
    ensures ValidUtf8(s) <==> IsText(s)
    decreases |s|
  {
    hide ValidUtf8, StartsValid, CharBytes;
    if s == [] {
      NoTextIsValid();
    } else {
      ValidStep(s);
      if StartsValid(s) {
        var c := ValidIsChar(s);
        Utf8Iff(s[CharLength(s[0])..]);
        assert s[|CharBytes(c)|..] == s[CharLength(s[0])..];
      }
      if c :| IsScalar(c) && CharBytes(c) <= s && IsText(s[|CharBytes(c)|..]) {
        CharIsValid(s, c);
      }
    }
  }

  lemma NoTextIsValid()
    ensures ValidUtf8([])
  {
  }

  /** A float is finite when its magnitude is below the infinity's. */
  lemma FiniteIff(bits: nat)
    ensures bits < 0x1_0000_0000 ==> (Finite32(bits) <==> bits % 0x8000_0000 < 0x7F80_0000)
    ensures bits < 0x1_0000_0000_0000_0000 ==>
              (Finite64(bits) <==> bits % 0x8000_0000_0000_0000 < 0x7FF0_0000_0000_0000)
  {
  }

  // ---- What an item stands for at its place ----

  /** Only the map at the third step, under "meta", may repeat a key. */
  ghost predicate Tolerant(indexed: bool, at: seq<Step>) {
    !indexed && |at| == 3 && at[2] == Key(Ascii("meta"))
  }

  ghost predicate KeyIs(w: Item, indexed: bool, k: Text) {
    if indexed then
      (w.PosFix? || w.UInt? || w.SInt?) && w.n >= 0 &&
      exists s :: DecimalOf(s, w.n) && k == [1] + Ascii("index:") + s
    else w.Txt? && IsText(w.text) && w.text == k
  }

  /** The i-th entry of a map has the key. */
  ghost predicate Entry(ws: seq<Item>, indexed: bool, i: nat, k: Text) {
    2 * i + 1 < |ws| && KeyIs(ws[2 * i], indexed, k)
  }

  ghost predicate HasKey(ws: seq<Item>, indexed: bool, i: nat) {
    exists k :: Entry(ws, indexed, i, k)
  }

  /** Two entries write the same text. */
  ghost predicate SameText(ws: seq<Item>, i: nat, j: nat) {
    2 * i + 1 < |ws| && 2 * j + 1 < |ws| &&
    ws[2 * i + 1].Txt? && ws[2 * j + 1].Txt? && ws[2 * i + 1].text == ws[2 * j + 1].text
  }

  /** The leaves are valid, the keys readable, and no map repeats a key, save for equal
      text in the map under "meta" at the third step. */
  ghost predicate Sound(w: Item, indexed: bool, at: seq<Step>)
    decreases w
  {
    match w
    case Txt(_, text) => IsText(text)
    case F32(bits) => bits % 0x8000_0000 < 0x7F80_0000
    case F64(bits) => bits % 0x8000_0000_0000_0000 < 0x7FF0_0000_0000_0000
    case Arr(_, items) => forall i: nat :: i < |items| ==> Sound(items[i], indexed, at + [Index(i)])
    case Map(_, items) =>
      && (forall i: nat :: 2 * i + 1 < |items| ==> HasKey(items, indexed, i))
      && (forall i: nat, k :: Entry(items, indexed, i, k) ==> Sound(items[2 * i + 1], indexed, at + [Key(k)]))
      && forall i: nat, j: nat, k :: i < j && Entry(items, indexed, i, k) && Entry(items, indexed, j, k) ==>
        Tolerant(indexed, at) && SameText(items, i, j)
    case _ => true
  }

  /** The value that the item writes; binary data is the array of its bytes. */
  ghost predicate Says(w: Item, indexed: bool, v: Value)
    decreases w
  {
    match w
    case Nil => v == Null
    case False => v == Bool(false)
    case True => v == Bool(true)
    case PosFix(n) => v == Int(n)
    case NegFix(n) => v == Int(n)
    case UInt(_, n) => v == Int(n)
    case SInt(_, n) => v == Int(n)
    case F32(bits) => v == Float(false, bits)
    case F64(bits) => v == Float(true, bits)
    case Txt(_, text) => v == Str(text)
    case Bin(_, data) => v.Array? && |v.items| == |data| && forall i :: 0 <= i < |data| ==> v.items[i] == Int(data[i])
    case Arr(_, items) =>
      v.Array? && |v.items| == |items| && forall i: nat :: i < |items| ==> Says(items[i], indexed, v.items[i])
    case Map(_, items) =>
      && v.Object?
      && (forall k :: k in v.fields ==> exists i: nat :: Entry(items, indexed, i, k))
      && forall i: nat, k :: Entry(items, indexed, i, k) ==>
        k in v.fields && Says(items[2 * i + 1], indexed, v.fields[k])
  }

  ghost predicate SaysOnly(w: Item, indexed: bool, value: Value) {
    forall v :: Says(w, indexed, v) <==> v == value
  }

  lemma KeyIff(w: Item, indexed: bool, k: Text)
    requires Legal(w)
    ensures KeyText(w, indexed) == Some(k) <==> KeyIs(w, indexed, k)
  {
    hide IsText, ValidUtf8, DecimalOf, Decimal;
    assert INDEX_PREFIX == [1] + Ascii("index:");
    if w.Txt? {
      Utf8Iff(w.text);
    }
    if indexed && (w.PosFix? || w.UInt? || w.SInt?) && w.n >= 0 {
      forall s
        ensures DecimalOf(s, w.n) <==> s == Decimal(w.n)
      {
        DecimalIff(s, w.n);
      }
    }
  }

  // ---- Entries of a map, one by one ----

  /** What the decoder makes of the value of an entry. */
  ghost function ValueAt(ws: seq<Item>, indexed: bool, depth: nat, i: nat): Option<Value>
    requires 2 * i + 1 < |ws|
  {
    var key := KeyText(ws[2 * i], indexed);
    if key.None? then None else Meaning(ws[2 * i + 1], indexed, depth + 1, IsMeta(indexed, depth, key.value))
  }

  ghost predicate Repeats(ws: seq<Item>, indexed: bool, i: nat, j: nat) {
    i < j && 2 * j + 1 < |ws| && KeyText(ws[2 * i], indexed) == KeyText(ws[2 * j], indexed)
  }

  ghost predicate EntriesMean(ws: seq<Item>, indexed: bool, depth: nat, repeated: bool) {
    && (forall i: nat :: 2 * i + 1 < |ws| ==> ValueAt(ws, indexed, depth, i).Some?)
    && forall i: nat, j: nat :: Repeats(ws, indexed, i, j) ==>
      repeated && ValueAt(ws, indexed, depth, j).value.Str? &&
      ValueAt(ws, indexed, depth, i) == ValueAt(ws, indexed, depth, j)
  }

  ghost predicate FieldsOf(ws: seq<Item>, indexed: bool, depth: nat, fields: map<Text, Value>) {
    && (forall i: nat :: 2 * i + 1 < |ws| && ValueAt(ws, indexed, depth, i).Some? ==>
         KeyText(ws[2 * i], indexed).value in fields &&
         fields[KeyText(ws[2 * i], indexed).value] == ValueAt(ws, indexed, depth, i).value)
    && forall k :: k in fields ==> exists i: nat :: 2 * i + 1 < |ws| && KeyText(ws[2 * i], indexed) == Some(k)
  }

  lemma PrefixEntries(ws: seq<Item>, indexed: bool, depth: nat, n: nat)
    requires |ws| == 2 * n + 2
    ensures forall i: nat :: i < n ==> 2 * i + 1 < 2 * n && ws[..2 * n][2 * i] == ws[2 * i] &&
                                       ValueAt(ws[..2 * n], indexed, depth, i) == ValueAt(ws, indexed, depth, i)
  {
    hide KeyText, Meaning;
    forall i: nat | i < n
      ensures 2 * i + 1 < 2 * n && ws[..2 * n][2 * i] == ws[2 * i]
      ensures ValueAt(ws[..2 * n], indexed, depth, i) == ValueAt(ws, indexed, depth, i)
    {
      assert ws[..2 * n][2 * i + 1] == ws[2 * i + 1];
    }
  }

  /** The last entry joins the others. */
  ghost predicate Joins(ws: seq<Item>, indexed: bool, depth: nat, repeated: bool, n: nat)
    requires |ws| == 2 * n + 2
  {
    && ValueAt(ws, indexed, depth, n).Some?
    && forall i: nat :: Repeats(ws, indexed, i, n) ==>
      repeated && ValueAt(ws, indexed, depth, n).value.Str? &&
      ValueAt(ws, indexed, depth, i) == ValueAt(ws, indexed, depth, n)
  }

  lemma EntriesMeanStep(ws: seq<Item>, indexed: bool, depth: nat, repeated: bool, n: nat)
    requires |ws| == 2 * n + 2
    ensures EntriesMean(ws, indexed, depth, repeated) <==>
            EntriesMean(ws[..2 * n], indexed, depth, repeated) && Joins(ws, indexed, depth, repeated, n)
  {
    hide KeyText, ValueAt;
    PrefixEntries(ws, indexed, depth, n);
    var init := ws[..2 * n];
    forall i: nat, j: nat
      ensures Repeats(init, indexed, i, j) <==> j < n && Repeats(ws, indexed, i, j)
    {
    }
  }

  lemma AddedField(ws: seq<Item>, indexed: bool, depth: nat, repeated: bool, n: nat, fields: map<Text, Value>)
    requires |ws| == 2 * n + 2 && FieldsOf(ws[..2 * n], indexed, depth, fields)
    requires EntriesMean(ws[..2 * n], indexed, depth, repeated) && ValueAt(ws, indexed, depth, n).Some?
    ensures var key, value := KeyText(ws[2 * n], indexed).value, ValueAt(ws, indexed, depth, n).value;
            var added := AddField(fields, key, value, repeated);
            (added.Some? <==> Joins(ws, indexed, depth, repeated, n)) &&
            (added.Some? ==> FieldsOf(ws, indexed, depth, added.value))
  {
    hide KeyText, Meaning, IsMeta;
    PrefixEntries(ws, indexed, depth, n);
    var init, key, value := ws[..2 * n], KeyText(ws[2 * n], indexed).value, ValueAt(ws, indexed, depth, n).value;
    if key in fields {
      var i: nat :| 2 * i + 1 < |init| && KeyText(init[2 * i], indexed) == Some(key);
      assert Repeats(ws, indexed, i, n);
    }
    forall i: nat | Repeats(ws, indexed, i, n)
      ensures key in fields && ValueAt(ws, indexed, depth, i) == Some(fields[key])
    {
      assert 2 * i + 1 < |init| && ValueAt(init, indexed, depth, i).Some?;
    }
    var added := AddField(fields, key, value, repeated);
    if added.Some? {
      FieldsGrow(ws, indexed, depth, n, fields, added.value);
    }
  }

  lemma FieldsGrow(ws: seq<Item>, indexed: bool, depth: nat, n: nat, fields: map<Text, Value>, added: map<Text, Value>)
    requires |ws| == 2 * n + 2 && FieldsOf(ws[..2 * n], indexed, depth, fields)
    requires ValueAt(ws, indexed, depth, n).Some?
    requires added == fields[KeyText(ws[2 * n], indexed).value := ValueAt(ws, indexed, depth, n).value]
    requires KeyText(ws[2 * n], indexed).value in fields ==> added == fields
    ensures FieldsOf(ws, indexed, depth, added)
  {
    var key := KeyText(ws[2 * n], indexed);
    assert key.Some?;
    hide KeyText, ValueAt;
    forall i: nat | 2 * i + 1 < |ws| && ValueAt(ws, indexed, depth, i).Some?
      ensures KeyText(ws[2 * i], indexed).value in added
      ensures added[KeyText(ws[2 * i], indexed).value] == ValueAt(ws, indexed, depth, i).value
    {
      if i < n {
        EarlierField(ws, indexed, depth, n, fields, i);
      } else {
        assert i == n;
      }
    }
    KeysGrow(ws, indexed, depth, n, fields, key.value);
  }

  lemma EarlierField(ws: seq<Item>, indexed: bool, depth: nat, n: nat, fields: map<Text, Value>, i: nat)
    requires |ws| == 2 * n + 2 && FieldsOf(ws[..2 * n], indexed, depth, fields)
    requires i < n && ValueAt(ws, indexed, depth, i).Some?
    ensures KeyText(ws[2 * i], indexed).Some? && KeyText(ws[2 * i], indexed).value in fields
    ensures fields[KeyText(ws[2 * i], indexed).value] == ValueAt(ws, indexed, depth, i).value
  {
    hide KeyText, Meaning, IsMeta;
    PrefixEntries(ws, indexed, depth, n);
    assert ValueAt(ws[..2 * n], indexed, depth, i).Some?;
  }

  lemma KeysGrow(ws: seq<Item>, indexed: bool, depth: nat, n: nat, fields: map<Text, Value>, key: Text)
    requires |ws| == 2 * n + 2 && FieldsOf(ws[..2 * n], indexed, depth, fields)
    requires KeyText(ws[2 * n], indexed) == Some(key)
    ensures forall k :: k in fields || k == key ==>
              exists i: nat :: 2 * i + 1 < |ws| && KeyText(ws[2 * i], indexed) == Some(k)
  {
    hide KeyText, ValueAt;
    var init := ws[..2 * n];
    forall k | k in fields
      ensures exists i: nat :: 2 * i + 1 < |ws| && KeyText(ws[2 * i], indexed) == Some(k)
    {
      var i: nat :| 2 * i + 1 < |init| && KeyText(init[2 * i], indexed) == Some(k);
      assert KeyText(ws[2 * i], indexed) == Some(k);
    }
  }

  /** A map has a meaning exactly when its entries have, and repeat one another only where
      that is tolerated. */
  lemma {:induction false} MapMeaning(ws: seq<Item>, indexed: bool, depth: nat, repeated: bool)
    requires |ws| % 2 == 0
    ensures MeaningMap(ws, indexed, depth, repeated).Some? <==> EntriesMean(ws, indexed, depth, repeated)
    ensures MeaningMap(ws, indexed, depth, repeated).Some? ==>
              FieldsOf(ws, indexed, depth, MeaningMap(ws, indexed, depth, repeated).value)
    decreases |ws|
  {
    hide EntriesMean, FieldsOf, Joins, AddField, KeyText, Meaning, IsMeta, ValueAt;
    if ws == [] {
      NoEntries(ws, indexed, depth, repeated);
    } else {
      var n := |ws| / 2 - 1;
      var init := ws[..2 * n];
      MapMeaning(init, indexed, depth, repeated);
      EntriesMeanStep(ws, indexed, depth, repeated, n);
      LastEntryAdds(ws, indexed, depth, repeated, n);
      if MeaningMap(init, indexed, depth, repeated).Some? && ValueAt(ws, indexed, depth, n).Some? {
        AddedField(ws, indexed, depth, repeated, n, MeaningMap(init, indexed, depth, repeated).value);
      }
      JoinsValue(ws, indexed, depth, repeated, n);
    }
  }

  lemma NoEntries(ws: seq<Item>, indexed: bool, depth: nat, repeated: bool)
    requires ws == []
    ensures MeaningMap(ws, indexed, depth, repeated) == Some(map[])
    ensures EntriesMean(ws, indexed, depth, repeated) && FieldsOf(ws, indexed, depth, map[])
  {
  }

  lemma JoinsValue(ws: seq<Item>, indexed: bool, depth: nat, repeated: bool, n: nat)
    requires |ws| == 2 * n + 2
    ensures Joins(ws, indexed, depth, repeated, n) ==> ValueAt(ws, indexed, depth, n).Some?
  {
  }

  lemma LastEntryAdds(ws: seq<Item>, indexed: bool, depth: nat, repeated: bool, n: nat)
    requires |ws| == 2 * n + 2
    ensures var init, value := MeaningMap(ws[..2 * n], indexed, depth, repeated), ValueAt(ws, indexed, depth, n);
            && (value.Some? ==> KeyText(ws[2 * n], indexed).Some?)
            && MeaningMap(ws, indexed, depth, repeated) ==
               if init.None? || value.None? then None
               else AddField(init.value, KeyText(ws[2 * n], indexed).value, value.value, repeated)
  {
    hide KeyText, Meaning, IsMeta, AddField;
  }

  lemma {:induction false} ArrayMeaning(ws: seq<Item>, indexed: bool, depth: nat)
    ensures MeaningAll(ws, indexed, depth).Some? <==>
            forall i :: 0 <= i < |ws| ==> Meaning(ws[i], indexed, depth + 1, false).Some?
    ensures MeaningAll(ws, indexed, depth).Some? ==>
              forall i :: 0 <= i < |ws| ==>
                Meaning(ws[i], indexed, depth + 1, false) == Some(MeaningAll(ws, indexed, depth).value[i])
    decreases |ws|
  {
    hide Meaning;
    if ws != [] {
      ArrayMeaning(ws[..|ws| - 1], indexed, depth);
    }
  }

  lemma {:induction false} LegalEach(ws: seq<Item>)
    requires LegalAll(ws)
    ensures forall i :: 0 <= i < |ws| ==> Legal(ws[i])
    decreases |ws|
  {
    hide Legal;
    if ws != [] {
      LegalEach(ws[..|ws| - 1]);
    }
  }

  // ---- The meaning of an item ----

  /** An item has a meaning exactly when it is sound at its place, and then means the one
      value that it writes. */
  lemma {:induction false} MeaningIff(w: Item, indexed: bool, at: seq<Step>)
    requires Legal(w)
    ensures Meaning(w, indexed, |at|, Tolerant(indexed, at)).Some? <==> Sound(w, indexed, at)
    ensures Sound(w, indexed, at) ==>
              forall v :: Says(w, indexed, v) <==> Meaning(w, indexed, |at|, Tolerant(indexed, at)) == Some(v)
    decreases w, 1
  {
    if w.Arr? {
      ItemsMeaningIff(w, indexed, at);
    } else if w.Map? {
      EntriesMeaningIff(w, indexed, at);
    } else {
      LeafMeaningIff(w, indexed, at);
    }
  }

  lemma LeafMeaningIff(w: Item, indexed: bool, at: seq<Step>)
    requires Legal(w) && !w.Arr? && !w.Map?
    ensures Meaning(w, indexed, |at|, Tolerant(indexed, at)).Some? <==> Sound(w, indexed, at)
    ensures Sound(w, indexed, at) ==>
              forall v :: Says(w, indexed, v) <==> Meaning(w, indexed, |at|, Tolerant(indexed, at)) == Some(v)
  {
    hide IsText, ValidUtf8, Finite32, Finite64;
    Pow256Values();
    if w.Txt? {
      Utf8Iff(w.text);
    } else if w.F32? || w.F64? {
      FiniteIff(w.bits);
    } else if w.Bin? {
      var all := Meaning(w, indexed, |at|, Tolerant(indexed, at)).value;
      forall v
        ensures Says(w, indexed, v) <==> v == all
      {
        if Says(w, indexed, v) {
          assert v.items == all.items;
        }
      }
    }
  }

  lemma ItemsMeaningIff(w: Item, indexed: bool, at: seq<Step>)
    requires Legal(w) && w.Arr?
    ensures Meaning(w, indexed, |at|, Tolerant(indexed, at)).Some? <==> Sound(w, indexed, at)
    ensures Sound(w, indexed, at) ==>
              forall v :: Says(w, indexed, v) <==> Meaning(w, indexed, |at|, Tolerant(indexed, at)) == Some(v)
    decreases w, 0
  {
    hide MeaningAll, Legal, LegalAll;
    LegalParts(w);
    LegalEach(w.items);
    ArrayMeaning(w.items, indexed, |at|);
    forall i: nat | i < |w.items|
      ensures Meaning(w.items[i], indexed, |at| + 1, false).Some? <==> Sound(w.items[i], indexed, at + [Index(i)])
      ensures Sound(w.items[i], indexed, at + [Index(i)]) ==>
                forall v :: Says(w.items[i], indexed, v) <==> Meaning(w.items[i], indexed, |at| + 1, false) == Some(v)
    {
      MeaningIff(w.items[i], indexed, at + [Index(i)]);
    }
    if Sound(w, indexed, at) {
      var all := MeaningAll(w.items, indexed, |at|).value;
      forall v
        ensures Says(w, indexed, v) <==> v == Array(all)
      {
        if Says(w, indexed, v) {
          forall i: nat | i < |all|
            ensures v.items[i] == all[i]
          {
            assert Says(w.items[i], indexed, v.items[i]);
          }
          assert v.items == all;
        }
      }
    }
  }

  lemma {:induction false} EntryMeaningIff(w: Item, indexed: bool, at: seq<Step>, i: nat, k: Text)
    requires Legal(w) && w.Map? && Entry(w.items, indexed, i, k)
    ensures KeyText(w.items[2 * i], indexed) == Some(k)
    ensures ValueAt(w.items, indexed, |at|, i).Some? <==> Sound(w.items[2 * i + 1], indexed, at + [Key(k)])
    ensures ValueAt(w.items, indexed, |at|, i).Some? ==>
              SaysOnly(w.items[2 * i + 1], indexed, ValueAt(w.items, indexed, |at|, i).value)
    decreases w, 0, 0
  {
    hide Legal, LegalAll, KeyText, KeyIs, Meaning, Sound, Says;
    LegalParts(w);
    LegalEach(w.items);
    KeyIff(w.items[2 * i], indexed, k);
    MetaIsTolerant(indexed, at, k);
    MeaningIff(w.items[2 * i + 1], indexed, at + [Key(k)]);
  }

  lemma MetaIsTolerant(indexed: bool, at: seq<Step>, k: Text)
    ensures Tolerant(indexed, at + [Key(k)]) <==> IsMeta(indexed, |at|, k)
  {
    assert META == Ascii("meta");
  }

  lemma EntryKeys(w: Item, indexed: bool, i: nat)
    requires Legal(w) && w.Map? && 2 * i + 1 < |w.items|
    ensures forall k :: Entry(w.items, indexed, i, k) <==> KeyText(w.items[2 * i], indexed) == Some(k)
    ensures HasKey(w.items, indexed, i) <==> KeyText(w.items[2 * i], indexed).Some?
  {
    hide Legal, LegalAll, KeyText, KeyIs;
    LegalParts(w);
    LegalEach(w.items);
    forall k
      ensures Entry(w.items, indexed, i, k) <==> KeyText(w.items[2 * i], indexed) == Some(k)
    {
      KeyIff(w.items[2 * i], indexed, k);
    }
    if KeyText(w.items[2 * i], indexed).Some? {
      assert Entry(w.items, indexed, i, KeyText(w.items[2 * i], indexed).value);
    }
  }

  lemma SameTextIff(ws: seq<Item>, indexed: bool, depth: nat, i: nat, j: nat)
    requires i < j && 2 * j + 1 < |ws| && ValueAt(ws, indexed, depth, i).Some? && ValueAt(ws, indexed, depth, j).Some?
    ensures SameText(ws, i, j) <==>
            ValueAt(ws, indexed, depth, j).value.Str? &&
            ValueAt(ws, indexed, depth, i) == ValueAt(ws, indexed, depth, j)
  {
    hide KeyText, IsMeta, MeaningAll, MeaningMap, ValidUtf8;
  }

  /** The values of all entries are sound exactly when the decoder reads them. */
  lemma EntryValuesIff(w: Item, indexed: bool, at: seq<Step>)
    requires Legal(w) && w.Map?
    ensures (forall i: nat :: 2 * i + 1 < |w.items| ==> ValueAt(w.items, indexed, |at|, i).Some?) <==>
            && (forall i: nat :: 2 * i + 1 < |w.items| ==> HasKey(w.items, indexed, i))
            && (forall i: nat, k :: Entry(w.items, indexed, i, k) ==> Sound(w.items[2 * i + 1], indexed, at + [Key(k)]))
    decreases w, 0, 1
  {
    hide Legal, Entry, HasKey, Sound, KeyText, Meaning, IsMeta, EntriesMean;
    forall i: nat | 2 * i + 1 < |w.items|
      ensures ValueAt(w.items, indexed, |at|, i).Some? ==> HasKey(w.items, indexed, i)
      ensures HasKey(w.items, indexed, i) ==> exists k :: Entry(w.items, indexed, i, k)
    {
      EntryKeys(w, indexed, i);
      if HasKey(w.items, indexed, i) {
        HasOneKey(w.items, indexed, i);
      }
    }
    forall i: nat, k | Entry(w.items, indexed, i, k)
      ensures 2 * i + 1 < |w.items|
      ensures ValueAt(w.items, indexed, |at|, i).Some? <==> Sound(w.items[2 * i + 1], indexed, at + [Key(k)])
    {
      EntryInRange(w.items, indexed, i, k);
      EntryMeaningIff(w, indexed, at, i, k);
    }
  }

  lemma HasOneKey(ws: seq<Item>, indexed: bool, i: nat)
    requires HasKey(ws, indexed, i)
    ensures exists k :: Entry(ws, indexed, i, k)
  {
  }

  lemma EntryInRange(ws: seq<Item>, indexed: bool, i: nat, k: Text)
    requires Entry(ws, indexed, i, k)
    ensures 2 * i + 1 < |ws|
  {
  }

  lemma RepeatsIff(w: Item, indexed: bool, at: seq<Step>)
    requires Legal(w) && w.Map?
    requires forall i: nat :: 2 * i + 1 < |w.items| ==> ValueAt(w.items, indexed, |at|, i).Some?
    ensures EntriesMean(w.items, indexed, |at|, Tolerant(indexed, at)) <==>
            forall i: nat, j: nat, k :: i < j && Entry(w.items, indexed, i, k) && Entry(w.items, indexed, j, k) ==>
              Tolerant(indexed, at) && SameText(w.items, i, j)
  {
    hide Legal, Entry, HasKey, KeyText, Meaning, IsMeta, SameText, Tolerant, ValueAt;
    forall i: nat, j: nat, k | i < j && Entry(w.items, indexed, i, k) && Entry(w.items, indexed, j, k)
      ensures Repeats(w.items, indexed, i, j)
    {
      EntryInRange(w.items, indexed, j, k);
      EntryKeys(w, indexed, i);
      EntryKeys(w, indexed, j);
    }
    forall i: nat, j: nat | Repeats(w.items, indexed, i, j)
      ensures exists k :: Entry(w.items, indexed, i, k) && Entry(w.items, indexed, j, k)
      ensures SameText(w.items, i, j) <==>
              ValueAt(w.items, indexed, |at|, j).value.Str? &&
              ValueAt(w.items, indexed, |at|, i) == ValueAt(w.items, indexed, |at|, j)
    {
      RepeatedKey(w, indexed, |at|, i, j);
      SameTextIff(w.items, indexed, |at|, i, j);
    }
  }

  lemma RepeatedKey(w: Item, indexed: bool, depth: nat, i: nat, j: nat)
    requires Legal(w) && w.Map? && Repeats(w.items, indexed, i, j)
    requires ValueAt(w.items, indexed, depth, i).Some?
    ensures exists k :: Entry(w.items, indexed, i, k) && Entry(w.items, indexed, j, k)
  {
    hide Legal, Entry, HasKey, KeyText, Meaning, IsMeta;
    EntryKeys(w, indexed, i);
    EntryKeys(w, indexed, j);
    var k := KeyText(w.items[2 * i], indexed).value;
    assert Entry(w.items, indexed, i, k) && Entry(w.items, indexed, j, k);
  }

  /** The entries write the fields and no others. */
  ghost predicate Writes(ws: seq<Item>, indexed: bool, fields: map<Text, Value>) {
    && (forall k :: k in fields ==> exists i: nat :: Entry(ws, indexed, i, k))
    && forall i: nat, k :: Entry(ws, indexed, i, k) ==> k in fields && SaysOnly(ws[2 * i + 1], indexed, fields[k])
  }

  lemma FieldsAreWritten(w: Item, indexed: bool, at: seq<Step>, fields: map<Text, Value>)
    requires Legal(w) && w.Map? && FieldsOf(w.items, indexed, |at|, fields)
    requires forall i: nat :: 2 * i + 1 < |w.items| ==> ValueAt(w.items, indexed, |at|, i).Some?
    ensures Writes(w.items, indexed, fields)
    decreases w, 0, 1
  {
    hide Legal, Entry, KeyText, Meaning, IsMeta, ValueAt, Says;
    forall i: nat, k | Entry(w.items, indexed, i, k)
      ensures 2 * i + 1 < |w.items|
      ensures k in fields && SaysOnly(w.items[2 * i + 1], indexed, fields[k])
    {
      EntryInRange(w.items, indexed, i, k);
      EntryMeaningIff(w, indexed, at, i, k);
      assert ValueAt(w.items, indexed, |at|, i) == Some(fields[k]);
    }
    forall k | k in fields
      ensures exists i: nat :: Entry(w.items, indexed, i, k)
    {
      var i: nat :| 2 * i + 1 < |w.items| && KeyText(w.items[2 * i], indexed) == Some(k);
      EntryKeys(w, indexed, i);
      assert Entry(w.items, indexed, i, k);
    }
  }

  lemma SaysWritten(w: Item, indexed: bool, fields: map<Text, Value>, v: Value)
    requires w.Map? && Writes(w.items, indexed, fields)
    ensures Says(w, indexed, v) <==> v == Object(fields)
  {
    hide KeyIs;
    if Says(w, indexed, v) {
      forall k
        ensures k in v.fields <==> k in fields
        ensures k in fields ==> v.fields[k] == fields[k]
      {
        if k in fields {
          var i: nat :| Entry(w.items, indexed, i, k);
          assert Says(w.items[2 * i + 1], indexed, v.fields[k]);
        }
      }
      assert v.fields == fields;
    }
    if v == Object(fields) {
      forall i: nat, k | Entry(w.items, indexed, i, k)
        ensures k in fields && Says(w.items[2 * i + 1], indexed, fields[k])
      {
        assert SaysOnly(w.items[2 * i + 1], indexed, fields[k]);
      }
    }
  }

  lemma EntriesMeaningIff(w: Item, indexed: bool, at: seq<Step>)
    requires Legal(w) && w.Map?
    ensures Meaning(w, indexed, |at|, Tolerant(indexed, at)).Some? <==> Sound(w, indexed, at)
    ensures Sound(w, indexed, at) ==>
              forall v :: Says(w, indexed, v) <==> Meaning(w, indexed, |at|, Tolerant(indexed, at)) == Some(v)
    decreases w, 0, 2
  {
    hide LegalHead, LegalAll, MeaningMap, Entry, HasKey, ValueAt, SameText, FieldsOf, EntriesMean, Says, Tolerant;
    assert |w.items| % 2 == 0 by {
      LegalParts(w);
      EvenItems(w);
    }
    MapMeaning(w.items, indexed, |at|, Tolerant(indexed, at));
    EntryValuesIff(w, indexed, at);
    EntriesMeanValues(w.items, indexed, |at|, Tolerant(indexed, at));
    if forall i: nat :: 2 * i + 1 < |w.items| ==> ValueAt(w.items, indexed, |at|, i).Some? {
      RepeatsIff(w, indexed, at);
      if Sound(w, indexed, at) {
        var fields := MeaningMap(w.items, indexed, |at|, Tolerant(indexed, at)).value;
        FieldsAreWritten(w, indexed, at, fields);
        forall v
          ensures Says(w, indexed, v) <==> v == Object(fields)
        {
          SaysWritten(w, indexed, fields, v);
        }
      }
    }
  }

  lemma EvenItems(w: Item)
    requires w.Map? && LegalHead(w)
    ensures |w.items| % 2 == 0
  {
  }

  lemma EntriesMeanValues(ws: seq<Item>, indexed: bool, depth: nat, repeated: bool)
    ensures EntriesMean(ws, indexed, depth, repeated) ==>
              forall i: nat :: 2 * i + 1 < |ws| ==> ValueAt(ws, indexed, depth, i).Some?
  {
  }

  /** The payload is read as the item exactly when the item is sound from the root, at most
      32 levels high and within the budgets; what is returned is the value it writes. */
  lemma ReadsIff(f: Frame, nodes: nat, w: Item)
    ensures Reads(f, nodes, w) <==>
            && Legal(w) && f.bytes == Encode(w) && Sound(w, f.indexed, [])
            && Height(w) <= 32 && Nodes(w) <= nodes && BinBytes(w) <= f.binaryBudget
            && Allocated(f, BinBytes(w), Binaries(w, f.indexed, if f.indexed then Other else Root)) <=
               f.allocationBudget
    ensures Reads(f, nodes, w) ==> forall v :: Says(w, f.indexed, v) <==> Meaning(w, f.indexed, 0, false) == Some(v)
  {
    hide Fits, Meaning, Sound, Says, Allocated, Encode, Legal, Height, Nodes, BinBytes, Binaries;
    if Legal(w) && f.bytes == Encode(w) {
      FitsFromRoot(f, nodes, w, if f.indexed then Other else Root);
      MeaningIff(w, f.indexed, []);
    }
    FitsIsLegal(f, Snapshot(0, nodes, f.binaryBudget, NO_BINARY), w, if f.indexed then Other else Root);
  }

  lemma FitsIsLegal(f: Frame, s: Snapshot, w: Item, ctx: Context)
    ensures Fits(f, s, w, ctx, 0, false) ==> Legal(w)
  {
  }

  lemma FitsFromRoot(f: Frame, nodes: nat, w: Item, ctx: Context)
    requires Legal(w) && f.bytes == Encode(w)
    ensures Fits(f, Snapshot(0, nodes, f.binaryBudget, NO_BINARY), w, ctx, 0, false) <==>
            && Meaning(w, f.indexed, 0, false).Some? && Height(w) <= 32
            && Nodes(w) <= nodes && BinBytes(w) <= f.binaryBudget
            && Allocated(f, BinBytes(w), Binaries(w, f.indexed, ctx)) <= f.allocationBudget
  {
    hide Meaning, Allocated, Encode, Legal, Height, Nodes, BinBytes, Binaries;
    ThenAssociative(Binaries(w, f.indexed, ctx), NO_BINARY, NO_BINARY);
    assert f.bytes[0..|Encode(w)|] == Encode(w);
  }

  // ---- Bytes ----

  function Two(n: int): seq<Byte> {
    [n / 0x100 % 0x100, n % 0x100]
  }

  function Four(n: int): seq<Byte> {
    [n / 0x100_0000 % 0x100, n / 0x1_0000 % 0x100, n / 0x100 % 0x100, n % 0x100]
  }

  function Eight(n: int): seq<Byte> {
    [n / 0x100_0000_0000_0000 % 0x100, n / 0x1_0000_0000_0000 % 0x100,
     n / 0x100_0000_0000 % 0x100, n / 0x1_0000_0000 % 0x100,
     n / 0x100_0000 % 0x100, n / 0x1_0000 % 0x100, n / 0x100 % 0x100, n % 0x100]
  }

  lemma BigEndianIs(n: int)
    ensures 0 <= n < Pow256(1) ==> BigEndian(n, 1) == [n % 0x100]
    ensures 0 <= n < Pow256(2) ==> BigEndian(n, 2) == Two(n)
    ensures 0 <= n < Pow256(4) ==> BigEndian(n, 4) == Four(n)
  {
    Pow256Values();
    if 0 <= n < Pow256(1) {
      ShortForm(n);
    }
    if 0 <= n < Pow256(2) {
      ShortForm(n / 0x100);
      assert BigEndian(n, 2) == BigEndian(n / 0x100, 1) + [n % 0x100];
    }
    if 0 <= n < Pow256(4) {
      FourForm(n);
    }
  }

  lemma ShortForm(n: int)
    requires 0 <= n < 0x100
    ensures Pow256(1) == 0x100 && BigEndian(n, 1) == [n % 0x100]
  {
    assert BigEndian(n / 0x100, 0) == [];
  }

  lemma FourForm(n: int)
    requires 0 <= n < 0x1_0000_0000
    ensures Pow256(4) == 0x1_0000_0000 && BigEndian(n, 4) == Four(n)
  {
    Pow256Values();
    assert Pow256(3) == 0x100_0000;
    var a, b, c := n / 0x100, n / 0x1_0000, n / 0x100_0000;
    assert a / 0x100 == b && b / 0x100 == c;
    ShortForm(c);
    assert BigEndian(b, 2) == BigEndian(c, 1) + [b % 0x100];
    assert BigEndian(a, 3) == BigEndian(b, 2) + [a % 0x100];
    assert BigEndian(n, 4) == BigEndian(a, 3) + [n % 0x100];
  }

  lemma EightForm(n: int)
    requires 0 <= n < 0x1_0000_0000_0000_0000
    ensures Pow256(8) == 0x1_0000_0000_0000_0000 && BigEndian(n, 8) == Eight(n)
  {
    Pow256Values();
    assert Pow256(5) == 0x100_0000_0000 && Pow256(6) == 0x1_0000_0000_0000 && Pow256(7) == 0x100_0000_0000_0000;
    var a, b, c, d := n / 0x100, n / 0x1_0000, n / 0x100_0000, n / 0x1_0000_0000;
    assert a / 0x100 == b && b / 0x100 == c && c / 0x100 == d;
    FourForm(d);
    assert d / 0x100 == n / 0x100_0000_0000 && d / 0x1_0000 == n / 0x1_0000_0000_0000;
    assert d / 0x100_0000 == n / 0x100_0000_0000_0000;
    assert BigEndian(c, 5) == BigEndian(d, 4) + [c % 0x100];
    assert BigEndian(b, 6) == BigEndian(c, 5) + [b % 0x100];
    assert BigEndian(a, 7) == BigEndian(b, 6) + [a % 0x100];
    assert BigEndian(n, 8) == BigEndian(a, 7) + [n % 0x100];
  }

  /** The first bytes of every form, most significant byte first; a negative number is
      written as its two's complement. */
  lemma NumberBytes(w: Item)
    requires LegalHead(w)
    ensures match w
      case PosFix(n) => Header(w) == [n]
      case NegFix(n) => Header(w) == [0x100 + n]
      case Nil => Header(w) == [0xC0]
      case False => Header(w) == [0xC2]
      case True => Header(w) == [0xC3]
      case UInt(width, n) =>
        && (width == 1 ==> Header(w) == [0xCC, n % 0x100])
        && (width == 2 ==> Header(w) == [0xCD] + Two(n))
        && (width == 4 ==> Header(w) == [0xCE] + Four(n))
        && (width == 8 ==> Header(w) == [0xCF] + Eight(n))
      case SInt(width, n) =>
        && (width == 1 ==> Header(w) == [0xD0, n % 0x100])
        && (width == 2 ==> Header(w) == [0xD1] + Two(n % 0x1_0000))
        && (width == 4 ==> Header(w) == [0xD2] + Four(n % 0x1_0000_0000))
        && (width == 8 ==> Header(w) == [0xD3] + Eight(n % 0x1_0000_0000_0000_0000))
      case F32(bits) => Header(w) == [0xCA] + Four(bits)
      case F64(bits) => Header(w) == [0xCB] + Eight(bits)
      case _ => true
  {
    Pow256Values();
    hide BigEndian, Pow256, Two, Four, Eight;
    match w
    case UInt(width, n) =>
      BigEndianIs(n);
      if width == 8 {
        EightForm(n);
      }
    case SInt(width, n) =>
      var u := if n < 0 then n + Pow256(width) else n;
      BigEndianIs(u);
      if width == 8 {
        EightForm(u);
      }
      assert u == n % Pow256(width) by {
        Wrapped(n, u, Pow256(width));
      }
    case F32(bits) =>
      BigEndianIs(bits);
    case F64(bits) =>
      EightForm(bits);
    case _ =>
  }

  lemma Wrapped(n: int, u: int, range: int)
    requires range in {0x100, 0x1_0000, 0x1_0000_0000, 0x1_0000_0000_0000_0000}
    requires -range <= 2 * n < range && u == if n < 0 then n + range else n
    ensures u == n % range
  {
  }

  lemma CountBytesAre(w: Item)
    requires LegalHead(w)
    ensures match w
      case Txt(width, text) =>
        && (width == 0 ==> Header(w) == [0xA0 + |text|])
        && (width == 1 ==> Header(w) == [0xD9, |text| % 0x100])
        && (width == 2 ==> Header(w) == [0xDA] + Two(|text|))
        && (width == 4 ==> Header(w) == [0xDB] + Four(|text|))
      case Arr(width, items) =>
        && (width == 0 ==> Header(w) == [0x90 + |items|])
        && (width == 2 ==> Header(w) == [0xDC] + Two(|items|))
        && (width == 4 ==> Header(w) == [0xDD] + Four(|items|))
      case Map(width, items) =>
        && (width == 0 ==> Header(w) == [0x80 + |items| / 2])
        && (width == 2 ==> Header(w) == [0xDE] + Two(|items| / 2))
        && (width == 4 ==> Header(w) == [0xDF] + Four(|items| / 2))
      case Bin(width, data) =>
        && (width == 1 ==> Header(w) == [0xC4, |data| % 0x100])
        && (width == 2 ==> Header(w) == [0xC5] + Two(|data|))
        && (width == 4 ==> Header(w) == [0xC6] + Four(|data|))
      case _ => true
  {
    hide BigEndian, Pow256, Two, Four;
    match w
    case Txt(width, text) => BigEndianIs(|text|);
    case Arr(width, items) => BigEndianIs(|items|);
    case Map(width, items) => BigEndianIs(|items| / 2);
    case Bin(width, data) => BigEndianIs(|data|);
    case _ =>
  }

  /** The value of a payload of one byte. */
  ghost predicate ByteSays(b: Byte, v: Value) {
    || (b <= 0x7F && v == Int(b))
    || (b >= 0xE0 && v == Int(b - 0x100))
    || (b == 0xC0 && v == Null)
    || (b == 0xC2 && v == Bool(false))
    || (b == 0xC3 && v == Bool(true))
    || (b == 0x80 && v == Object(map[]))
    || (b == 0x90 && v == Array([]))
    || (b == 0xA0 && v == Str([]))
  }

  function ByteItem(b: Byte): Item {
    if b <= 0x7F then PosFix(b)
    else if b == 0x80 then Map(0, [])
    else if b == 0x90 then Arr(0, [])
    else if b == 0xA0 then Txt(0, [])
    else if b == 0xC0 then Nil
    else if b == 0xC2 then False
    else if b == 0xC3 then True
    else NegFix(b - 0x100)
  }

  lemma ByteItemIs(b: Byte, indexed: bool)
    requires exists v :: ByteSays(b, v)
    ensures var w := ByteItem(b);
            && Legal(w) && Encode(w) == [b] && Height(w) == 0 && Nodes(w) == 1 && BinBytes(w) == 0
            && Binaries(w, indexed, Root) == NO_BINARY && Binaries(w, indexed, Other) == NO_BINARY
            && exists v :: Meaning(w, indexed, 0, false) == Some(v) && ByteSays(b, v)
  {
    var w, v := ByteItem(b), Meaning(ByteItem(b), indexed, 0, false);
    assert v.Some? && ByteSays(b, v.value);
  }

  lemma ByteItemOnly(b: Byte, w: Item)
    requires Legal(w) && Encode(w) == [b]
    ensures (exists v :: ByteSays(b, v)) && w == ByteItem(b)
  {
    hide BigEndian, Pow256;
    LegalParts(w);
    HeaderLength(w);
    assert Encode(w)[0] == Header(w)[0];
    if w.Arr? || w.Map? {
      assert w.items == [];
    }
    var v :=
      if b <= 0x7F then Int(b) else if b >= 0xE0 then Int(b - 0x100) else if b == 0xC0 then Null
      else if b == 0xC2 then Bool(false) else if b == 0xC3 then Bool(true) else if b == 0x80 then Object(map[])
      else if b == 0x90 then Array([]) else Str([]);
    assert ByteSays(b, v);
  }

  /** The payloads of one byte: small numbers, null, the truth values, and the empty map,
      array and text. No other byte is a payload. */
  lemma OneByte(f: Frame, nodes: nat, b: Byte, v: Value)
    requires f.bytes == [b] && nodes >= 1
    ensures ByteSays(b, v) <==> exists w :: Reads(f, nodes, w) && Meaning(w, f.indexed, 0, false) == Some(v)
  {
    hide Meaning, Sound, Says, Legal, Encode, ByteItem;
    if ByteSays(b, v) {
      ByteItemIs(b, f.indexed);
      var w := ByteItem(b);
      NothingAllocated(f);
      ThenAssociative(NO_BINARY, NO_BINARY, NO_BINARY);
      assert f.bytes[0..|Encode(w)|] == Encode(w);
      assert Reads(f, nodes, w);
    }
    if w :| Reads(f, nodes, w) && Meaning(w, f.indexed, 0, false) == Some(v) {
      ByteItemOnly(b, w);
      ByteItemIs(b, f.indexed);
    }
  }

  lemma {:induction false} NothingAllocated(f: Frame)
    ensures Allocated(f, 0, NO_BINARY) == 0
  {
    TimesIsProduct(0, f.valueSize);
    TimesIsProduct(0, f.fieldSize);
    TimesIsProduct(0, f.spanSize);
  }

  // ---- Limits ----

  function NestedNil(k: nat): Item {
    if k == 0 then Nil else Arr(0, [NestedNil(k - 1)])
  }

  function NestedBytes(k: nat): seq<Byte> {
    if k == 0 then [0xC0] else [0x91] + NestedBytes(k - 1)
  }

  lemma {:induction false} NestedFacts(k: nat, indexed: bool, depth: nat)
    ensures var w := NestedNil(k);
            && Legal(w) && Encode(w) == NestedBytes(k) && Height(w) == k && Nodes(w) == k + 1 && BinBytes(w) == 0
            && Meaning(w, indexed, depth, false).Some? && forall ctx :: Binaries(w, indexed, ctx) == NO_BINARY
  {
    if k > 0 {
      var v := NestedNil(k - 1);
      NestedFacts(k - 1, indexed, depth + 1);
      One(v);
      OneItem(v, indexed, depth);
    }
  }

  lemma OneItem(v: Item, indexed: bool, depth: nat)
    requires Legal(v) && Meaning(v, indexed, depth + 1, false).Some?
    requires forall ctx :: Binaries(v, indexed, ctx) == NO_BINARY
    ensures var w := Arr(0, [v]);
            && Legal(w) && Encode(w) == [0x91] + Encode(v) && Height(w) == Height(v) + 1
            && Nodes(w) == Nodes(v) + 1 && BinBytes(w) == BinBytes(v)
            && Meaning(w, indexed, depth, false).Some? && forall ctx :: Binaries(w, indexed, ctx) == NO_BINARY
  {
    hide Encode, Legal, Nodes, Height, BinBytes, Binaries, Meaning;
    One(v);
    ArrayOfOne(v, indexed, depth);
    ArrayForms(Arr(0, [v]), indexed, depth);
  }

  lemma ArrayOfOne(v: Item, indexed: bool, depth: nat)
    requires Meaning(v, indexed, depth + 1, false).Some?
    requires forall ctx :: Binaries(v, indexed, ctx) == NO_BINARY
    ensures MeaningAll([v], indexed, depth).Some? && forall ctx :: BinariesAll([v], indexed, ctx) == NO_BINARY
  {
    hide Meaning, Binaries;
    assert [v][..0] == [];
    assert MeaningAll([], indexed, depth) == Some([]);
    forall ctx
      ensures BinariesAll([v], indexed, ctx) == NO_BINARY
    {
      assert BinariesAll([], indexed, ctx) == NO_BINARY;
      ThenAssociative(NO_BINARY, NO_BINARY, NO_BINARY);
    }
  }

  lemma ArrayForms(w: Item, indexed: bool, depth: nat)
    requires w.Arr? && w.width == 0 && 0 < |w.items| < 16 && LegalAll(w.items)
    ensures Legal(w) && Encode(w) == [0x90 + |w.items|] + EncodeAll(w.items)
    ensures Height(w) == 1 + HeightAll(w.items)
    ensures Nodes(w) == 1 + NodesAll(w.items) && BinBytes(w) == BinBytesAll(w.items)
    ensures MeaningAll(w.items, indexed, depth).Some? ==> Meaning(w, indexed, depth, false).Some?
    ensures forall ctx :: Binaries(w, indexed, ctx) == BinariesAll(w.items, indexed, ctx)
  {
    hide EncodeAll, LegalAll, HeightAll, NodesAll, BinBytesAll, MeaningAll, BinariesAll;
  }

  /** Arrays nest 32 deep, and every value, the innermost too, takes a node. */
  lemma NestingLimit(f: Frame, nodes: nat, k: nat)
    requires f.bytes == NestedBytes(k)
    ensures (exists w :: Reads(f, nodes, w)) <==> k <= 32 && k + 1 <= nodes
  {
    hide Reads, Encode, Legal, NestedNil, Height, Nodes, Meaning, Sound, Says;
    NestedFacts(k, f.indexed, 0);
    NothingAllocated(f);
    MeaningIff(NestedNil(k), f.indexed, []);
    ReadsIff(f, nodes, NestedNil(k));
    forall w | Reads(f, nodes, w)
      ensures w == NestedNil(k)
    {
      ReadsIff(f, nodes, w);
      UniqueReading(w, NestedNil(k), [], []);
    }
  }

  /** Binary data spends its bytes, and one value for each. */
  lemma BinaryLimit(f: Frame, nodes: nat, data: seq<Byte>)
    requires |data| < 0x100 && f.bytes == [0xC4, |data|] + data
    ensures (exists w :: Reads(f, nodes, w)) <==>
            nodes >= 1 && |data| <= f.binaryBudget && |data| * f.valueSize <= f.allocationBudget
    ensures forall w, v :: Reads(f, nodes, w) ==>
              (Meaning(w, f.indexed, 0, false) == Some(v) <==>
               v.Array? && |v.items| == |data| && forall i :: 0 <= i < |data| ==> v.items[i] == Int(data[i]))
  {
    hide Reads, Encode, Sound;
    var w := Bin(1, data);
    BinaryFacts(data, f.indexed);
    BinaryAllocated(f, |data|);
    ReadsIff(f, nodes, w);
    forall u | Reads(f, nodes, u)
      ensures u == w
    {
      ReadsIff(f, nodes, u);
      UniqueReading(u, w, [], []);
    }
  }

  lemma BinaryFacts(data: seq<Byte>, indexed: bool)
    requires |data| < 0x100
    ensures var w := Bin(1, data);
            && Legal(w) && Encode(w) == [0xC4, |data|] + data && Height(w) == 0 && Nodes(w) == 1
            && BinBytes(w) == |data| && Sound(w, indexed, [])
            && Binaries(w, indexed, if indexed then Other else Root) == Provenance([], [], true)
  {
    Pow256Values();
    CountBytesAre(Bin(1, data));
  }

  lemma BinaryAllocated(f: Frame, n: nat)
    ensures Allocated(f, n, Provenance([], [], true)) == n * f.valueSize
  {
    TimesIsProduct(n, f.valueSize);
    TimesIsProduct(0, f.fieldSize);
    TimesIsProduct(0, f.spanSize);
  }

  /** The provenance vectors hold a power of two, the least that suffices. */
  lemma {:induction false} CapacityIsPower(n: nat) returns (k: nat)
    requires n > 0
    ensures Capacity(n) == Pow2(k) && n <= Pow2(k) < 2 * n
  {
    if n == 1 {
      k := 0;
      assert Capacity(0) == 0;
    } else {
      k := CapacityIsPower(n - 1);
      if n > Pow2(k) {
        k := k + 1;
      }
    }
  }

  /** All that was ever reserved is twice the last capacity less one entry. */
  lemma {:induction false} GrowthIs(n: nat)
    requires n > 0
    ensures Growth(n) == 2 * Capacity(n) - 1
  {
    if n == 1 {
      assert Capacity(0) == 0 && Growth(0) == 0;
    } else {
      GrowthIs(n - 1);
      var k := CapacityIsPower(n - 1);
    }
  }

  lemma {:induction false} KeyBytesAre(fields: seq<(nat, nat, Text)>, field: (nat, nat, Text))
    ensures KeyBytes([]) == 0 && KeyBytes(fields + [field]) == KeyBytes(fields) + |field.2|
  {
    assert (fields + [field])[..|fields|] == fields;
  }

  /** What a run has charged, in closed form. */
  lemma ChargeIs(f: Frame, binary: nat, p: Provenance)
    ensures var fields := if p.fields == [] then 0 else 2 * Capacity(|p.fields|) - 1;
            var spans := if p.spans == [] then 0 else 2 * Capacity(|p.spans|) - 1;
            Allocated(f, binary, p) ==
              binary * f.valueSize + KeyBytes(p.fields) + fields * f.fieldSize + spans * f.spanSize
  {
    TimesIsProduct(binary, f.valueSize);
    TimesIsProduct(Growth(|p.fields|), f.fieldSize);
    TimesIsProduct(Growth(|p.spans|), f.spanSize);
    if p.fields != [] {
      GrowthIs(|p.fields|);
    }
    if p.spans != [] {
      GrowthIs(|p.spans|);
    }
  }
}
