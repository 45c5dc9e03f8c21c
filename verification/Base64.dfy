/** Base64 in either alphabet, padded or not. */
module Base64 {
  import opened Basics
  import opened Wrappers

  type Sextet = v: nat | v < 64

  const EQUALS: Byte := 61

  // ---- The alphabets ----

  datatype Alphabet = Standard | UrlSafe

  function Letter(a: Alphabet, v: Sextet): Byte {
    if v < 26 then 65 + v
    else if v < 52 then 97 + (v - 26)
    else if v < 62 then 48 + (v - 52)
    else if v == 62 then if a.Standard? then 43 else 45
    else if a.Standard? then 47 else 95
  }

  function Value(c: Byte): Option<Sextet> {
    if 65 <= c <= 90 then Some(c - 65)
    else if 97 <= c <= 122 then Some(c - 97 + 26)
    else if 48 <= c <= 57 then Some(c - 48 + 52)
    else if c == 43 || c == 45 then Some(62)
    else if c == 47 || c == 95 then Some(63)
    else None
  }

  /** The letters of both alphabets are exactly the characters with a value. */
  lemma LettersHaveValues(c: Byte, v: Sextet)
    ensures Value(c) == Some(v) <==> c == Letter(Standard, v) || c == Letter(UrlSafe, v)
  {
  }

  predicate IsData(s: seq<Byte>) {
    forall i :: 0 <= i < |s| ==> Value(s[i]).Some?
  }

  function Values(s: seq<Byte>): seq<Sextet>
    requires IsData(s)
  {
    seq(|s|, i requires 0 <= i < |s| => Value(s[i]).value)
  }

  // ---- The canonical encoding ----

  // Three bytes x, y, z and the four sextets of their twenty-four bits.
  function Left(x: Byte): Sextet { x / 4 }
  function Mid(x: Byte, y: Byte): Sextet { x % 4 * 16 + y / 16 }
  function Next(y: Byte, z: Byte): Sextet { y % 16 * 4 + z / 64 }
  function Right(z: Byte): Sextet { z % 64 }

  function First(a: Sextet, b: Sextet): Byte { a * 4 + b / 16 }
  function Second(b: Sextet, c: Sextet): Byte { b % 16 * 16 + c / 4 }
  function Third(c: Sextet, d: Sextet): Byte { c % 4 * 64 + d }

  lemma BytesRegrouped(x: Byte, y: Byte, z: Byte)
    ensures First(Left(x), Mid(x, y)) == x && Second(Mid(x, y), Next(y, z)) == y && Third(Next(y, z), Right(z)) == z
    ensures Mid(x, 0) % 16 == 0 && Next(y, 0) % 4 == 0
  {
  }

  lemma SextetsRegrouped(a: Sextet, b: Sextet, c: Sextet, d: Sextet)
    ensures Left(First(a, b)) == a && Mid(First(a, b), Second(b, c)) == b
    ensures Next(Second(b, c), Third(c, d)) == c && Right(Third(c, d)) == d
    ensures b % 16 == 0 ==> Mid(First(a, b), 0) == b
    ensures c % 4 == 0 ==> Next(Second(b, c), 0) == c
  {
  }

  /** Three bytes become four sextets; a last group of one or two bytes is filled with zero bits. */
  function Sextets(bytes: seq<Byte>): seq<Sextet> {
    if bytes == [] then []
    else if |bytes| == 1 then [Left(bytes[0]), Mid(bytes[0], 0)]
    else if |bytes| == 2 then [Left(bytes[0]), Mid(bytes[0], bytes[1]), Next(bytes[1], 0)]
    else
      [Left(bytes[0]), Mid(bytes[0], bytes[1]), Next(bytes[1], bytes[2]), Right(bytes[2])] + Sextets(bytes[3..])
  }

  function Padding(length: nat): seq<Byte> {
    if length % 3 == 0 then [] else if length % 3 == 1 then [EQUALS, EQUALS] else [EQUALS]
  }

  function Letters(a: Alphabet, sextets: seq<Sextet>): seq<Byte> {
    seq(|sextets|, i requires 0 <= i < |sextets| => Letter(a, sextets[i]))
  }

  function Encode(bytes: seq<Byte>, a: Alphabet, padded: bool): seq<Byte> {
    Letters(a, Sextets(bytes)) + if padded then Padding(|bytes|) else []
  }

  /** The text is the canonical encoding of the bytes, up to the choice of alphabet letter
      by letter and the presence of the padding. */
  ghost predicate Encodes(s: seq<Byte>, bytes: seq<Byte>) {
    var n := |Sextets(bytes)|;
    n <= |s| && IsData(s[..n]) && Values(s[..n]) == Sextets(bytes) && (s[n..] == [] || s[n..] == Padding(|bytes|))
  }

  // ---- The decoder's steps ----

  function Weight(bits: nat): nat
    requires bits in {0, 2, 4, 6}
  {
    if bits == 0 then 1 else if bits == 2 then 4 else if bits == 4 then 16 else 64
  }

  // Between two characters at most six bits wait, and the buffer holds no other bits.
  predicate Waiting(buffer: nat, bits: nat) {
    bits in {0, 2, 4, 6} && buffer < Weight(bits)
  }

  // The state after the sextets, with the bytes put out on the way.
  datatype State = State(output: seq<Byte>, buffer: nat, bits: nat)

  function Run(s: seq<Sextet>, buffer: nat, bits: nat): (r: State)
    requires Waiting(buffer, bits)
    ensures Waiting(r.buffer, r.bits)
  {
    if s == [] then State([], buffer, bits)
    else
      var wide := buffer * 64 + s[0];
      if bits == 0 then Run(s[1..], wide, 6)
      else
        var left := bits - 2;
        var rest := Run(s[1..], wide % Weight(left), left);
        rest.(output := [wide / Weight(left)] + rest.output)
  }

  lemma RunStep(buffer: nat, bits: nat, v: Sextet, s: seq<Sextet>)
    requires Waiting(buffer, bits)
    ensures var wide := buffer * 64 + v;
            Run([v] + s, buffer, bits) ==
            if bits == 0 then Run(s, wide, 6)
            else
              var rest := Run(s, wide % Weight(bits - 2), bits - 2);
              rest.(output := [wide / Weight(bits - 2)] + rest.output)
  {
    assert ([v] + s)[1..] == s;
  }

  lemma Shifted(a: Sextet, b: Sextet, c: Sextet, d: Sextet)
    ensures (a * 64 + b) / 16 == First(a, b) && (a * 64 + b) % 16 == b % 16
    ensures (b % 16 * 64 + c) / 4 == Second(b, c) && (b % 16 * 64 + c) % 4 == c % 4
    ensures (c % 4 * 64 + d) / 1 == Third(c, d) && (c % 4 * 64 + d) % 1 == 0
  {
  }

  lemma RunFour(a: Sextet, b: Sextet, c: Sextet, d: Sextet, s: seq<Sextet>)
    ensures var rest := Run(s, 0, 0);
            Run([a, b, c, d] + s, 0, 0) == rest.(output := [First(a, b), Second(b, c), Third(c, d)] + rest.output)
  {
    hide Run, First, Second, Third;
    Shifted(a, b, c, d);
    RunStep(0, 0, a, [b, c, d] + s);
    assert [a] + ([b, c, d] + s) == [a, b, c, d] + s;
    RunStep(a, 6, b, [c, d] + s);
    assert [b] + ([c, d] + s) == [b, c, d] + s;
    RunStep(b % 16, 4, c, [d] + s);
    assert [c] + ([d] + s) == [c, d] + s;
    RunStep(c % 4, 2, d, s);
    ThreeBytes(First(a, b), Second(b, c), Third(c, d), Run(s, 0, 0).output);
  }

  lemma ThreeBytes(x: Byte, y: Byte, z: Byte, rest: seq<Byte>)
    ensures [x] + ([y] + ([z] + rest)) == [x, y, z] + rest
  {
  }

  lemma RunTwo(a: Sextet, b: Sextet)
    ensures Run([a, b], 0, 0) == State([First(a, b)], b % 16, 4)
  {
    hide Run, First, Second, Third;
    Shifted(a, b, 0, 0);
    RunStep(0, 0, a, [b]);
    RunStep(a, 6, b, []);
    RunEnds(b % 16, 4);
    assert [a] + [b] == [a, b] && [b] + [] == [b];
  }

  lemma RunThree(a: Sextet, b: Sextet, c: Sextet)
    ensures Run([a, b, c], 0, 0) == State([First(a, b), Second(b, c)], c % 4, 2)
  {
    hide Run, First, Second, Third;
    Shifted(a, b, c, 0);
    RunStep(0, 0, a, [b, c]);
    RunStep(a, 6, b, [c]);
    RunStep(b % 16, 4, c, []);
    RunEnds(c % 4, 2);
    assert [a] + [b, c] == [a, b, c] && [b] + [c] == [b, c] && [c] + [] == [c];
  }

  lemma RunEnds(buffer: nat, bits: nat)
    requires Waiting(buffer, bits)
    ensures Run([], buffer, bits) == State([], buffer, bits)
  {
  }

  /** The decoder's steps undo the encoding and leave nothing but zero bits. */
  lemma {:induction false} RunUndoesSextets(bytes: seq<Byte>)
    ensures Run(Sextets(bytes), 0, 0).buffer == 0 && Run(Sextets(bytes), 0, 0).output == bytes
  {
    hide Run, Left, Mid, Next, Right, First, Second, Third;
    if bytes == [] {
      RunNone();
    } else if |bytes| == 1 {
      BytesRegrouped(bytes[0], 0, 0);
      RunTwo(Left(bytes[0]), Mid(bytes[0], 0));
    } else if |bytes| == 2 {
      BytesRegrouped(bytes[0], bytes[1], 0);
      RunThree(Left(bytes[0]), Mid(bytes[0], bytes[1]), Next(bytes[1], 0));
    } else {
      var x, y, z := bytes[0], bytes[1], bytes[2];
      RunUndoesSextets(bytes[3..]);
      BytesRegrouped(x, y, z);
      RunFour(Left(x), Mid(x, y), Next(y, z), Right(z), Sextets(bytes[3..]));
      assert bytes == [x, y, z] + bytes[3..];
    }
  }

  lemma RunNone()
    ensures Run([], 0, 0) == State([], 0, 0)
  {
  }

  /** Whatever the steps accept with zero bits left over is the encoding of their output. */
  lemma {:induction false} SextetsUndoRun(s: seq<Sextet>)
    requires |s| % 4 != 1 && Run(s, 0, 0).buffer == 0
    ensures Sextets(Run(s, 0, 0).output) == s
  {
    hide Run, Left, Mid, Next, Right, First, Second, Third;
    if s == [] {
      RunNone();
    } else if |s| == 2 {
      RunTwo(s[0], s[1]);
      SextetsRegrouped(s[0], s[1], 0, 0);
      assert s == [s[0], s[1]];
    } else if |s| == 3 {
      RunThree(s[0], s[1], s[2]);
      SextetsRegrouped(s[0], s[1], s[2], 0);
      assert s == [s[0], s[1], s[2]];
    } else {
      var a, b, c, d := s[0], s[1], s[2], s[3];
      assert s == [a, b, c, d] + s[4..];
      RunFour(a, b, c, d, s[4..]);
      SextetsUndoRun(s[4..]);
      SextetsRegrouped(a, b, c, d);
      var out := Run(s, 0, 0).output;
      assert out[3..] == Run(s[4..], 0, 0).output;
    }
  }

  /** The number of sextets left over tells the padding. */
  lemma {:induction false} SextetCount(bytes: seq<Byte>)
    ensures var n := |Sextets(bytes)| % 4;
            && n == (if |bytes| % 3 == 0 then 0 else |bytes| % 3 + 1)
            && |Padding(|bytes|)| == (4 - n) % 4
  {
    hide Padding, Sextets;
    PaddingCount(|bytes|);
    if |bytes| >= 3 {
      SextetCount(bytes[3..]);
      FourMore(bytes);
    } else {
      FewSextets(bytes);
    }
  }

  lemma FewSextets(bytes: seq<Byte>)
    requires |bytes| < 3
    ensures |Sextets(bytes)| == if bytes == [] then 0 else |bytes| + 1
  {
  }

  lemma FourMore(bytes: seq<Byte>)
    requires |bytes| >= 3
    ensures |Sextets(bytes)| == 4 + |Sextets(bytes[3..])|
  {
  }

  lemma PaddingCount(length: nat)
    ensures |Padding(length)| == if length % 3 == 0 then 0 else 3 - length % 3
  {
  }

  // ---- The decoder ----

  // What the loop knows after i characters: data, then padding.
  ghost predicate Read(s: seq<Byte>, i: nat, data: nat, padding: nat) {
    && data + padding == i <= |s| && padding <= 2
    && IsData(s[..data])
    && forall k :: data <= k < i ==> s[k] == EQUALS
  }

  method DecodeBase64(encoded: seq<Byte>) returns (r: Option<seq<Byte>>)
    ensures r.Some? ==> Encodes(encoded, r.value)
    ensures r.None? ==> forall bytes :: !Encodes(encoded, bytes)
  {
    hide Encodes, Run;
    var output: seq<Byte> := [];
    var buffer: nat, bits: nat := 0, 0;
    var data, padding := 0, 0;
    ghost var sextets: seq<Sextet> := [];
    RunNone();
    for i := 0 to |encoded|
      invariant Read(encoded, i, data, padding) && sextets == Values(encoded[..data])
      invariant Waiting(buffer, bits) && Run(sextets, 0, 0) == State(output, buffer, bits)
    {
      var byte := encoded[i];
      if byte == EQUALS {
        padding := padding + 1;
        if padding > 2 {
          TooMuchPadding(encoded, data, i);
          return None;
        }
        continue;
      }
      if padding != 0 || Value(byte).None? {
        BadCharacter(encoded, data, padding, i);
        return None;
      }
      var value := Value(byte).value;
      RunAppend(sextets, value);
      ReadNext(encoded, data);
      sextets := sextets + [value];
      data := data + 1;
      buffer := buffer * 64 + value;
      bits := bits + 6;
      if bits >= 8 {
        bits := bits - 8;
        output := output + [buffer / Weight(bits)];
        buffer := buffer % Weight(bits);
      }
    }
    var remainder := data % 4;
    if remainder == 1 || (padding != 0 && (data + padding) % 4 != 0) || (padding == 1 && remainder != 3)
       || (padding == 2 && remainder != 2) || buffer != 0
    {
      Incomplete(encoded, data, padding);
      return None;
    }
    Complete(encoded, data, padding, output);
    r := Some(output);
  }

  lemma {:induction false} RunAppend(s: seq<Sextet>, v: Sextet)
    ensures var before := Run(s, 0, 0);
            var wide := before.buffer * 64 + v;
            Run(s + [v], 0, 0) ==
            if before.bits == 0 then State(before.output, wide, 6)
            else State(before.output + [wide / Weight(before.bits - 2)], wide % Weight(before.bits - 2),
                 before.bits - 2)
  {
    RunAppendFrom(s, v, 0, 0);
  }

  lemma {:induction false} RunAppendFrom(s: seq<Sextet>, v: Sextet, buffer: nat, bits: nat)
    requires Waiting(buffer, bits)
    ensures var before := Run(s, buffer, bits);
            var wide := before.buffer * 64 + v;
            Run(s + [v], buffer, bits) ==
            if before.bits == 0 then State(before.output, wide, 6)
            else State(before.output + [wide / Weight(before.bits - 2)], wide % Weight(before.bits - 2),
                 before.bits - 2)
    decreases |s|
  {
    hide Run;
    if s == [] {
      assert s + [v] == [v] + [];
      RunEnds(buffer, bits);
      RunStep(buffer, bits, v, []);
      var wide := buffer * 64 + v;
      if bits == 0 {
        RunEnds(wide, 6);
      } else {
        RunEnds(wide % Weight(bits - 2), bits - 2);
      }
    } else {
      var rest := s[1..];
      assert s == [s[0]] + rest && s + [v] == [s[0]] + (rest + [v]);
      RunStep(buffer, bits, s[0], rest);
      RunStep(buffer, bits, s[0], rest + [v]);
      var wide := buffer * 64 + s[0];
      if bits == 0 {
        RunAppendFrom(rest, v, wide, 6);
      } else {
        RunAppendFrom(rest, v, wide % Weight(bits - 2), bits - 2);
      }
    }
  }

  lemma ReadNext(s: seq<Byte>, data: nat)
    requires data < |s| && IsData(s[..data]) && Value(s[data]).Some?
    ensures IsData(s[..data + 1]) && Values(s[..data + 1]) == Values(s[..data]) + [Value(s[data]).value]
  {
    assert s[..data + 1] == s[..data] + [s[data]];
  }

  lemma EncodesShape(s: seq<Byte>, bytes: seq<Byte>)
    requires Encodes(s, bytes)
    ensures var n := |Sextets(bytes)|;
            && n <= |s| <= n + 2 && IsData(s[..n]) && forall k :: n <= k < |s| ==> s[k] == EQUALS
  {
    hide Sextets, IsData;
    var n := |Sextets(bytes)|;
    forall k | n <= k < |s|
      ensures s[k] == EQUALS
    {
      assert s[k] == s[n..][k - n];
    }
  }

  lemma DataEnds(s: seq<Byte>, i: nat, data: nat, padding: nat, bytes: seq<Byte>)
    requires Read(s, i, data, padding) && Encodes(s, bytes) && (padding > 0 || i == |s|)
    ensures |Sextets(bytes)| == data
  {
    hide Sextets, Encodes, IsData;
    EncodesShape(s, bytes);
    var n := |Sextets(bytes)|;
    DataCharacters(s, n);
    DataCharacters(s, data);
    var afterData, afterSextets := if data < |s| then s[data] else 0, if n < |s| then s[n] else 0;
  }

  lemma DataCharacters(s: seq<Byte>, n: nat)
    requires n <= |s| && IsData(s[..n])
    ensures forall k :: 0 <= k < n ==> Value(s[k]).Some?
  {
    forall k | 0 <= k < n
      ensures Value(s[k]).Some?
    {
      assert s[..n][k] == s[k];
    }
  }

  lemma TooMuchPadding(s: seq<Byte>, data: nat, i: nat)
    requires Read(s, i, data, 2) && i < |s|
    ensures forall bytes :: !Encodes(s, bytes)
  {
    hide Sextets, Encodes;
    forall bytes
      ensures !Encodes(s, bytes)
    {
      if Encodes(s, bytes) {
        EncodesShape(s, bytes);
        DataEnds(s, i, data, 2, bytes);
      }
    }
  }

  lemma BadCharacter(s: seq<Byte>, data: nat, padding: nat, i: nat)
    requires Read(s, i, data, padding) && i < |s| && s[i] != EQUALS && (padding != 0 || Value(s[i]).None?)
    ensures forall bytes :: !Encodes(s, bytes)
  {
    hide Sextets, Encodes;
    forall bytes
      ensures !Encodes(s, bytes)
    {
      if Encodes(s, bytes) {
        EncodesShape(s, bytes);
        if padding != 0 {
          DataEnds(s, i, data, padding, bytes);
        } else {
          DataCharacters(s, |Sextets(bytes)|);
        }
      }
    }
  }

  lemma PaddingLength(s: seq<Byte>, bytes: seq<Byte>)
    requires Encodes(s, bytes)
    ensures var rest := |s| - |Sextets(bytes)|; rest == 0 || rest == |Padding(|bytes|)|
  {
    hide Sextets;
    var n := |Sextets(bytes)|;
    assert |s[n..]| == |s| - n;
  }

  lemma Incomplete(s: seq<Byte>, data: nat, padding: nat)
    requires Read(s, |s|, data, padding)
    requires var remainder := data % 4;
             || remainder == 1 || (padding != 0 && (data + padding) % 4 != 0) || (padding == 1 && remainder != 3)
             || (padding == 2 && remainder != 2) || Run(Values(s[..data]), 0, 0).buffer != 0
    ensures forall bytes :: !Encodes(s, bytes)
  {
    hide Sextets, Run;
    forall bytes
      ensures !Encodes(s, bytes)
    {
      if Encodes(s, bytes) {
        EncodesData(s, bytes);
        DataEnds(s, |s|, data, padding, bytes);
        PaddingLength(s, bytes);
        SextetCount(bytes);
        RunUndoesSextets(bytes);
      }
    }
  }

  lemma Complete(s: seq<Byte>, data: nat, padding: nat, output: seq<Byte>)
    requires Read(s, |s|, data, padding) && data % 4 != 1 && (padding != 0 ==> (data + padding) % 4 == 0)
    requires Run(Values(s[..data]), 0, 0).buffer == 0 && Run(Values(s[..data]), 0, 0).output == output
    ensures Encodes(s, output)
  {
    hide Sextets, Run;
    SextetsUndoRun(Values(s[..data]));
    SextetCount(output);
    assert |s[data..]| == padding;
    if padding != 0 {
      assert padding == |Padding(|output|)|;
      assert s[data..] == Padding(|output|);
    }
  }

  // ---- What the decoder's contract means ----

  /** A text encodes at most one byte string. */
  lemma EncodesOne(s: seq<Byte>, a: seq<Byte>, b: seq<Byte>)
    requires Encodes(s, a) && Encodes(s, b)
    ensures a == b
  {
    hide Sextets, Run, Padding;
    EncodesData(s, a);
    EncodesData(s, b);
    RunUndoesSextets(a);
    RunUndoesSextets(b);
    SameLength(s, a, b);
    SameLength(s, b, a);
  }

  lemma SameLength(s: seq<Byte>, a: seq<Byte>, b: seq<Byte>)
    requires Encodes(s, a) && Encodes(s, b)
    ensures |Sextets(a)| >= |Sextets(b)|
  {
    hide Sextets, Encodes, IsData;
    EncodesShape(s, a);
    EncodesShape(s, b);
    DataCharacters(s, |Sextets(b)|);
    var afterA := if |Sextets(a)| < |s| then s[|Sextets(a)|] else 0;
  }

  lemma EncodesData(s: seq<Byte>, a: seq<Byte>)
    requires Encodes(s, a)
    ensures var n := |Sextets(a)|;
            n <= |s| && IsData(s[..n]) && Values(s[..n]) == Sextets(a)
  {
  }

  /** Every encoding, in either alphabet, padded or not, encodes its bytes; with the
      decoder's contract it therefore decodes to them. */
  lemma EncodingEncodes(bytes: seq<Byte>, a: Alphabet, padded: bool)
    ensures Encodes(Encode(bytes, a, padded), bytes)
  {
    hide Sextets;
    var sextets := Sextets(bytes);
    var s := Encode(bytes, a, padded);
    var n := |sextets|;
    assert s[..n] == Letters(a, sextets);
    forall i | 0 <= i < n
      ensures Value(s[..n][i]) == Some(sextets[i])
    {
      LettersHaveValues(Letter(a, sextets[i]), sextets[i]);
    }
    assert s[n..] == if padded then Padding(|bytes|) else [];
  }

  method RoundTrip(bytes: seq<Byte>, a: Alphabet, padded: bool) returns (r: Option<seq<Byte>>)
    ensures r == Some(bytes)
  {
    EncodingEncodes(bytes, a, padded);
    r := DecodeBase64(Encode(bytes, a, padded));
    EncodesOne(Encode(bytes, a, padded), r.value, bytes);
  }

  predicate SameUpToAlphabet(s: seq<Byte>, t: seq<Byte>) {
    |s| == |t| && forall i :: 0 <= i < |s| ==> s[i] == t[i] || (Value(s[i]).Some? && Value(s[i]) == Value(t[i]))
  }

  /** An accepted text is, up to the alphabet, the padded or the unpadded encoding of what
      it encodes. */
  lemma EncodedIsCanonical(s: seq<Byte>, bytes: seq<Byte>)
    requires Encodes(s, bytes)
    ensures SameUpToAlphabet(s, Encode(bytes, Standard, false)) || SameUpToAlphabet(s, Encode(bytes, Standard, true))
  {
    hide Sextets, Padding, Letter;
    var sextets := Sextets(bytes);
    var n := |sextets|;
    var t := Encode(bytes, Standard, s[n..] != []);
    assert s == s[..n] + s[n..];
    forall i | 0 <= i < n
      ensures Value(s[i]) == Some(sextets[i]) && Value(t[i]) == Some(sextets[i])
    {
      assert Values(s[..n])[i] == sextets[i] && s[..n][i] == s[i];
      LettersHaveValues(t[i], sextets[i]);
    }
    forall i | n <= i < |s|
      ensures s[i] == t[i]
    {
      assert s[n..][i - n] == s[i];
    }
  }
}
