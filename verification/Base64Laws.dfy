/** Base64 group by group, in plain characters and numbers. */
module Base64Laws {
  import opened Basics
  import opened Wrappers
  import opened Base64

  /** The character stands for the six bits, in either alphabet. */
  predicate StandsFor(c: Byte, v: int) {
    || (0 <= v < 26 && c == 'A' as int + v)
    || (26 <= v < 52 && c == 'a' as int + (v - 26))
    || (52 <= v < 62 && c == '0' as int + (v - 52))
    || (v == 62 && (c == '+' as int || c == '-' as int))
    || (v == 63 && (c == '/' as int || c == '_' as int))
  }

  lemma ValueIff(c: Byte, v: int)
    ensures StandsFor(c, v) <==> 0 <= v < 64 && Value(c) == Some(v)
  {
  }

  lemma LetterIs(v: Sextet)
    ensures StandsFor(Letter(Standard, v), v) && StandsFor(Letter(UrlSafe, v), v)
    ensures Letter(Standard, 62) == '+' as int && Letter(Standard, 63) == '/' as int
    ensures Letter(UrlSafe, 62) == '-' as int && Letter(UrlSafe, 63) == '_' as int
  {
  }

  /** One byte is written as its upper six bits and its lower two, four zero bits after
      them; then nothing or two equals signs. */
  predicate OneByte(s: seq<Byte>, x: Byte) {
    && (|s| == 2 || (|s| == 4 && s[2] == '=' as int && s[3] == '=' as int))
    && StandsFor(s[0], x * 0x10 / 0x40) && StandsFor(s[1], x * 0x10 % 0x40)
  }

  predicate TwoBytes(s: seq<Byte>, x: Byte, y: Byte) {
    var n := x * 0x100 + y;
    && (|s| == 3 || (|s| == 4 && s[3] == '=' as int))
    && StandsFor(s[0], n * 4 / 0x1000) && StandsFor(s[1], n * 4 / 0x40 % 0x40) && StandsFor(s[2], n * 4 % 0x40)
  }

  /** Three bytes are written as the four parts of their twenty-four bits. */
  predicate ThreeBytes(s: seq<Byte>, x: Byte, y: Byte, z: Byte) {
    var n := x * 0x1_0000 + y * 0x100 + z;
    && |s| >= 4
    && StandsFor(s[0], n / 0x4_0000) && StandsFor(s[1], n / 0x1000 % 0x40)
    && StandsFor(s[2], n / 0x40 % 0x40) && StandsFor(s[3], n % 0x40)
  }

  lemma OnePart(x: Byte)
    ensures Left(x) == x * 0x10 / 0x40 && Mid(x, 0) == x * 0x10 % 0x40
  {
  }

  lemma TwoParts(x: Byte, y: Byte)
    ensures var n := x * 0x100 + y;
            Left(x) == n * 4 / 0x1000 && Mid(x, y) == n * 4 / 0x40 % 0x40 && Next(y, 0) == n * 4 % 0x40
  {
    var a, b, c, d := x / 4, x % 4, y / 16, y % 16;
    var n := x * 0x100 + y;
    assert n * 4 == a * 0x1000 + b * 0x400 + c * 0x40 + d * 4;
    assert n * 4 / 0x40 == a * 0x40 + b * 0x10 + c;
  }

  lemma ThreeParts(x: Byte, y: Byte, z: Byte)
    ensures var n := x * 0x1_0000 + y * 0x100 + z;
            && Left(x) == n / 0x4_0000 && Mid(x, y) == n / 0x1000 % 0x40
            && Next(y, z) == n / 0x40 % 0x40 && Right(z) == n % 0x40
  {
    var a, b, c, d, e, f := x / 4, x % 4, y / 16, y % 16, z / 64, z % 64;
    var n := x * 0x1_0000 + y * 0x100 + z;
    assert n == a * 0x4_0000 + b * 0x1_0000 + c * 0x1000 + d * 0x100 + e * 0x40 + f;
    assert n / 0x40 == a * 0x1000 + b * 0x400 + c * 0x40 + d * 4 + e;
    assert n / 0x1000 == a * 0x40 + b * 0x10 + c;
  }

  lemma SextetsStand(s: seq<Byte>, sextets: seq<Sextet>)
    requires |sextets| <= |s|
    ensures IsData(s[..|sextets|]) && Values(s[..|sextets|]) == sextets <==>
            forall i :: 0 <= i < |sextets| ==> StandsFor(s[i], sextets[i])
  {
    var head := s[..|sextets|];
    forall i | 0 <= i < |sextets|
      ensures StandsFor(s[i], sextets[i]) <==> Value(head[i]) == Some(sextets[i])
    {
      ValueIff(s[i], sextets[i]);
    }
    if IsData(head) && Values(head) == sextets {
      forall i | 0 <= i < |sextets|
        ensures StandsFor(s[i], sextets[i])
      {
        assert Values(head)[i] == sextets[i];
      }
    }
  }

  lemma ShortIff(s: seq<Byte>, x: Byte, y: Byte)
    ensures Encodes(s, []) <==> s == []
    ensures Encodes(s, [x]) <==> OneByte(s, x)
    ensures Encodes(s, [x, y]) <==> TwoBytes(s, x, y)
  {
    hide StandsFor, Left, Mid, Next;
    OnePart(x);
    TwoParts(x, y);
    assert Sextets([x]) == [Left(x), Mid(x, 0)] && Sextets([x, y]) == [Left(x), Mid(x, y), Next(y, 0)];
    if |s| >= 2 {
      SextetsStand(s, Sextets([x]));
      PaddedTail(s, 2, 1);
    }
    if |s| >= 3 {
      SextetsStand(s, Sextets([x, y]));
      PaddedTail(s, 3, 2);
    }
  }

  lemma PaddedTail(s: seq<Byte>, n: nat, length: nat)
    requires n <= |s|
    ensures s[n..] == [] <==> |s| == n
    ensures length % 3 == 1 ==>
              (s[n..] == Padding(length) <==> |s| == n + 2 && s[n] == '=' as int && s[n + 1] == '=' as int)
    ensures length % 3 == 2 ==> (s[n..] == Padding(length) <==> |s| == n + 1 && s[n] == '=' as int)
  {
    var tail := s[n..];
    assert forall i :: 0 <= i < |tail| ==> tail[i] == s[n + i];
  }

  /** The text encodes the bytes exactly when its groups do, one after the other. */
  lemma EncodesIff(s: seq<Byte>, bytes: seq<Byte>)
    ensures Encodes(s, bytes) <==>
            if |bytes| == 0 then s == []
            else if |bytes| == 1 then OneByte(s, bytes[0])
            else if |bytes| == 2 then TwoBytes(s, bytes[0], bytes[1])
            else ThreeBytes(s, bytes[0], bytes[1], bytes[2]) && Encodes(s[4..], bytes[3..])
  {
    hide Encodes, OneByte, TwoBytes, ThreeBytes;
    if |bytes| < 3 {
      var x, y: Byte := if bytes != [] then bytes[0] else 0, if |bytes| == 2 then bytes[1] else 0;
      ShortIff(s, x, y);
      assert bytes == [] || bytes == [x] || bytes == [x, y];
    } else {
      LongIff(s, bytes);
    }
  }

  lemma StandSplit(s: seq<Byte>, first: seq<Sextet>, rest: seq<Sextet>)
    requires |first| == 4 && 4 + |rest| <= |s|
    ensures (forall i :: 0 <= i < 4 + |rest| ==> StandsFor(s[i], (first + rest)[i])) <==>
            && StandsFor(s[0], first[0]) && StandsFor(s[1], first[1])
            && StandsFor(s[2], first[2]) && StandsFor(s[3], first[3])
            && forall i :: 0 <= i < |rest| ==> StandsFor(s[4..][i], rest[i])
  {
    hide StandsFor;
    var all := first + rest;
    assert forall i :: 0 <= i < |rest| ==> all[4 + i] == rest[i] && s[4..][i] == s[4 + i];
    if forall i :: 0 <= i < 4 + |rest| ==> StandsFor(s[i], all[i]) {
      assert StandsFor(s[0], all[0]) && StandsFor(s[1], all[1]) && StandsFor(s[2], all[2]) && StandsFor(s[3], all[3]);
      forall i | 0 <= i < |rest|
        ensures StandsFor(s[4..][i], rest[i])
      {
        assert StandsFor(s[4 + i], all[4 + i]);
      }
    }
    if forall i :: 0 <= i < |rest| ==> StandsFor(s[4..][i], rest[i]) {
      forall i | 4 <= i < 4 + |rest|
        ensures StandsFor(s[i], all[i])
      {
        assert StandsFor(s[4..][i - 4], rest[i - 4]);
      }
    }
  }

  ghost predicate Stand(s: seq<Byte>, sextets: seq<Sextet>) {
    |sextets| <= |s| && forall i :: 0 <= i < |sextets| ==> StandsFor(s[i], sextets[i])
  }

  ghost predicate Ends(s: seq<Byte>, n: nat, length: nat) {
    n <= |s| && (s[n..] == [] || s[n..] == Padding(length))
  }

  lemma EncodesStand(s: seq<Byte>, bytes: seq<Byte>)
    ensures Encodes(s, bytes) <==> Stand(s, Sextets(bytes)) && Ends(s, |Sextets(bytes)|, |bytes|)
  {
    hide StandsFor, Sextets, Padding, IsData, Values;
    if |Sextets(bytes)| <= |s| {
      SextetsStand(s, Sextets(bytes));
    }
  }

  lemma EndsLater(s: seq<Byte>, n: nat, length: nat)
    requires |s| >= 4
    ensures Ends(s, 4 + n, length + 3) <==> Ends(s[4..], n, length)
  {
    assert Padding(length + 3) == Padding(length);
    if 4 + n <= |s| {
      assert s[4..][n..] == s[4 + n..];
    }
  }

  lemma ThreeStand(s: seq<Byte>, x: Byte, y: Byte, z: Byte)
    ensures ThreeBytes(s, x, y, z) <==>
            && |s| >= 4 && StandsFor(s[0], Left(x)) && StandsFor(s[1], Mid(x, y))
            && StandsFor(s[2], Next(y, z)) && StandsFor(s[3], Right(z))
  {
    hide StandsFor, Left, Mid, Next, Right;
    ThreeParts(x, y, z);
  }

  lemma LongIff(s: seq<Byte>, bytes: seq<Byte>)
    requires |bytes| >= 3
    ensures Encodes(s, bytes) <==>
            ThreeBytes(s, bytes[0], bytes[1], bytes[2]) && Encodes(s[4..], bytes[3..])
  {
    var x, y, z, rest := bytes[0], bytes[1], bytes[2], Sextets(bytes[3..]);
    var first := [Left(x), Mid(x, y), Next(y, z), Right(z)];
    assert Sextets(bytes) == first + rest;
    hide StandsFor, Left, Mid, Next, Right, Sextets, Encodes, Ends, ThreeBytes;
    EncodesStand(s, bytes);
    ThreeStand(s, x, y, z);
    if |s| >= 4 {
      EncodesStand(s[4..], bytes[3..]);
      EndsLater(s, |rest|, |bytes| - 3);
      if |s| >= 4 + |rest| {
        StandSplit(s, first, rest);
      }
    }
  }
}
