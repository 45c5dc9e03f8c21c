/** Requests byte by byte: how fields may be spelled, which heads are refused, how long a
    body may be, and what the limits on a stream are. */
module HttpLaws {
  import opened Basics
  import opened Wrappers
  import opened HttpRequest
  import opened HttpHead

  // ---- Characters ----

  /** A character of a text stands for its code. */
  lemma AsciiCodes(s: string, i: nat)
    requires i < |s| && s[i] <= '~'
    ensures |Ascii(s)| == |s| && Ascii(s)[i] == s[i] as int
  {
  }

  const NAME_MARKS: string := "!#$%&'*+-.^_`|~"

  /** The characters of a field name. */
  ghost predicate NameByte(b: Byte) {
    || ('0' as int <= b <= '9' as int) || ('a' as int <= b <= 'z' as int) || ('A' as int <= b <= 'Z' as int)
    || exists i :: 0 <= i < |NAME_MARKS| && NAME_MARKS[i] as int == b
  }

  ghost predicate ValueByte(b: Byte) {
    b == 9 || (b >= 32 && b != 127)
  }

  lemma NameBytes(b: Byte)
    ensures IsTokenByte(b) <==> NameByte(b)
  {
    var codes: seq<int> := [33, 35, 36, 37, 38, 39, 42, 43, 45, 46, 94, 95, 96, 124, 126];
    MarkCodes();
    if b in codes {
      var i :| 0 <= i < |codes| && codes[i] == b;
      assert NAME_MARKS[i] as int == b;
    }
  }

  lemma MarkCodes()
    ensures |NAME_MARKS| == 15
    ensures forall i :: 0 <= i < 15 ==>
              NAME_MARKS[i] as int == [33, 35, 36, 37, 38, 39, 42, 43, 45, 46, 94, 95, 96, 124, 126][i]
  {
  }

  // ---- One field ----

  /** The name as it is kept: every capital letter is replaced by its small one. */
  ghost predicate SameButCase(written: Text, name: Text) {
    |name| == |written| &&
    forall i :: 0 <= i < |name| ==> name[i] == if 65 <= written[i] <= 90 then written[i] + 32 else written[i]
  }

  ghost predicate Blanks(s: Text) {
    forall i :: 0 <= i < |s| ==> s[i] == 32 || s[i] == 9
  }

  ghost predicate Unpadded(s: Text) {
    s != [] ==> s[0] != 32 && s[0] != 9 && s[|s| - 1] != 32 && s[|s| - 1] != 9
  }

  /** A field may be written in any letter case and with any blanks around its value. */
  datatype Spelling = Spelling(name: Text, before: Text, after: Text)

  ghost predicate Spells(sp: Spelling, h: Header) {
    && sp.name != [] && (forall i :: 0 <= i < |sp.name| ==> NameByte(sp.name[i])) && SameButCase(sp.name, h.name)
    && (forall i :: 0 <= i < |h.value| ==> ValueByte(h.value[i])) && Unpadded(h.value)
    && Blanks(sp.before) && Blanks(sp.after)
  }

  function SpelledLine(sp: Spelling, value: Text): Text {
    sp.name + [58] + (sp.before + value + sp.after)
  }

  lemma {:induction false} BlanksBefore(blanks: Text, s: Text)
    requires Blanks(blanks)
    ensures TrimStart(blanks + s) == TrimStart(s)
  {
    if blanks == [] {
      assert blanks + s == s;
    } else {
      BlanksBefore(blanks[1..], s);
      assert (blanks + s)[1..] == blanks[1..] + s;
    }
  }

  lemma {:induction false} BlanksAfter(s: Text, blanks: Text)
    requires Blanks(blanks)
    ensures TrimEnd(s + blanks) == TrimEnd(s)
  {
    if blanks == [] {
      assert s + blanks == s;
    } else {
      var n := |blanks| - 1;
      BlanksAfter(s, blanks[..n]);
      assert (s + blanks)[..|s + blanks| - 1] == s + blanks[..n];
    }
  }

  lemma PaddedValue(before: Text, value: Text, after: Text)
    requires Blanks(before) && Blanks(after) && Unpadded(value)
    ensures Trim(before + value + after) == value
  {
    assert before + value + after == before + (value + after);
    BlanksBefore(before, value + after);
    if value == [] {
      assert value + after == after && after + [] == after;
      BlanksBefore(after, []);
    } else {
      assert TrimStart(value + after) == value + after;
      BlanksAfter(value, after);
    }
  }

  /** However a field is spelled, it is read as its name in small letters and its bare value. */
  lemma SpelledFieldReads(sp: Spelling, h: Header)
    requires Spells(sp, h)
    ensures Plain(SpelledLine(sp, h.value)) && FieldLine(SpelledLine(sp, h.value)) == Some(h)
  {
    hide IndexOf, Trim, IsTokenByte, NameByte;
    var value := sp.before + h.value + sp.after;
    var line := sp.name + [58] + value;
    forall i | 0 <= i < |sp.name|
      ensures IsTokenByte(sp.name[i])
    {
      NameBytes(sp.name[i]);
    }
    TokenPlain(sp.name);
    IndexAt(sp.name, 58, value);
    assert line[..|sp.name|] == sp.name && line[|sp.name| + 1..] == value;
    PaddedValue(sp.before, h.value, sp.after);
    assert forall b :: b in value ==> b == 9 || (b >= 32 && b != 127);
    assert HttpHead.Lower(sp.name) == h.name;
  }

  /** A field: a name of name characters up to the first colon, and a value behind it. */
  ghost predicate FieldAt(line: Text, at: nat) {
    && 0 < at < |line| && line[at] == 58
    && (forall i :: 0 <= i < at ==> NameByte(line[i]))
    && (forall i :: at < i < |line| ==> ValueByte(line[i]))
  }

  lemma PartsOfField(line: Text, at: nat)
    requires at < |line|
    ensures FieldAt(line, at) <==>
            line[at] == 58 && IsToken(line[..at]) && IsFieldValue(line[at + 1..])
  {
    hide NameByte, IsTokenByte;
    forall b: Byte
      ensures IsTokenByte(b) <==> NameByte(b)
    {
      NameBytes(b);
    }
    var name, value := line[..at], line[at + 1..];
    assert forall i :: 0 <= i < at ==> name[i] == line[i];
    assert forall i :: at < i < |line| ==> value[i - at - 1] == line[i];
    if FieldAt(line, at) {
      forall i | 0 <= i < |value|
        ensures ValueByte(value[i])
      {
        assert value[i] == line[at + 1 + i];
      }
    }
  }

  lemma ColonEndsName(line: Text, at: nat, colon: nat)
    requires FieldAt(line, at) && colon < |line| && line[colon] == 58 && 58 !in line[..colon]
    ensures at == colon
  {
    hide NameByte;
    ColonIsNoName();
    assert forall i :: 0 <= i < colon ==> line[..colon][i] == line[i];
    assert forall i :: 0 <= i < at ==> NameByte(line[i]);
  }

  /** A line is a field exactly when it has a colon, name characters up to the first one and
      no control character behind it. */
  lemma FieldLineIff(line: Text)
    ensures FieldLine(line).Some? <==> exists at :: FieldAt(line, at)
  {
    hide FieldAt, IsToken, IsFieldValue, IndexOf;
    var colon := IndexOf(line, 58);
    if colon.Some? {
      PartsOfField(line, colon.value);
    }
    if at :| FieldAt(line, at) {
      FieldHasColon(line, at);
      ColonEndsName(line, at, colon.value);
    }
  }

  lemma FieldHasColon(line: Text, at: nat)
    requires FieldAt(line, at)
    ensures 58 in line
  {
  }

  lemma ColonIsNoName()
    ensures !NameByte(58) && !IsTokenByte(58)
  {
    NameBytes(58);
  }

  // ---- Numbers ----

  /** A number in decimal digits. */
  function Written(n: nat): Text {
    if n < 10 then [48 + n] else Written(n / 10) + [48 + n % 10]
  }

  lemma {:induction false} WrittenDigits(n: nat)
    ensures Written(n) != [] && forall i :: 0 <= i < |Written(n)| ==> 48 <= Written(n)[i] <= 57
  {
    if n >= 10 {
      WrittenDigits(n / 10);
    }
  }

  lemma {:induction false} NumberOfWritten(n: nat)
    ensures forall i :: 0 <= i < |Written(n)| ==> IsDigit(Written(n)[i])
    ensures Number(Written(n)) == n
  {
    WrittenDigits(n);
    if n >= 10 {
      NumberOfWritten(n / 10);
      var s := Written(n);
      assert s[..|s| - 1] == Written(n / 10);
    }
  }

  /** A written length is read as itself if it fits the machine word, and refused if not. */
  lemma WrittenLength(n: nat)
    ensures LengthOf(Some(Written(n))) == if n <= 18446744073709551615 then Some(n) else None
  {
    hide Number;
    WrittenDigits(n);
    NumberOfWritten(n);
  }

  /** Anything but decimal digits is no length. */
  lemma NoLength(value: Text)
    requires value == [] || exists i :: 0 <= i < |value| && !(48 <= value[i] <= 57)
    ensures LengthOf(Some(value)).None? && LengthOf(None) == Some(0)
  {
  }

  // ---- Fields that go together ----

  /** The field that announces the length of the body, if there is one. */
  ghost predicate Announces(headers: seq<Header>, n: nat) {
    || (n == 0 && forall i :: 0 <= i < |headers| ==> headers[i].name != Ascii("content-length"))
    || exists i :: 0 <= i < |headers| && headers[i] == Header(Ascii("content-length"), Written(n))
  }

  /** At most one length, one content type and one host, no transfer encoding, and a host in
      brackets only where it is valid. */
  ghost predicate GoTogether(headers: seq<Header>, policy: Policy) {
    && (forall i :: 0 <= i < |headers| ==> headers[i].name != Ascii("transfer-encoding"))
    && (forall i, j :: 0 <= i < j < |headers| && headers[i].name == headers[j].name ==>
          headers[i].name !in {Ascii("content-length"), Ascii("content-type"), Ascii("host")})
    && (forall i :: 0 <= i < |headers| && headers[i].name == Ascii("host") && [91] <= headers[i].value ==>
          policy.validHost(headers[i].value))
  }

  lemma {:induction false} CountTwo(headers: seq<Header>, name: Text)
    ensures CountOf(headers, name) == 0 <==> forall i :: 0 <= i < |headers| ==> headers[i].name != name
    ensures CountOf(headers, name) <= 1 <==>
            forall i, j :: 0 <= i < j < |headers| && headers[i].name == headers[j].name ==> headers[i].name != name
  {
    if headers != [] {
      var n := |headers| - 1;
      var init := headers[..n];
      CountTwo(init, name);
      assert forall i :: 0 <= i < n ==> init[i] == headers[i];
      if headers[n].name == name && CountOf(init, name) >= 1 {
        var i :| 0 <= i < n && init[i].name == name;
        assert headers[i].name == headers[n].name;
      }
    }
  }

  lemma {:induction false} FirstIs(headers: seq<Header>, name: Text)
    ensures FirstOf(headers, name).None? <==> forall i :: 0 <= i < |headers| ==> headers[i].name != name
    ensures FirstOf(headers, name).Some? ==>
              exists i :: 0 <= i < |headers| && headers[i] == Header(name, FirstOf(headers, name).value)
  {
    if headers != [] && headers[0].name != name {
      FirstIs(headers[1..], name);
      assert forall i :: 0 < i < |headers| ==> headers[i] == headers[1..][i - 1];
      if FirstOf(headers[1..], name).Some? {
        var i :| 0 <= i < |headers[1..]| && headers[1..][i] == Header(name, FirstOf(headers, name).value);
        assert headers[i + 1] == Header(name, FirstOf(headers, name).value);
      }
    } else if headers != [] {
      assert headers[0] == Header(name, headers[0].value);
    }
  }

  lemma NamesApart()
    ensures Ascii("content-length") != Ascii("content-type") && Ascii("content-length") != Ascii("host")
    ensures Ascii("content-type") != Ascii("host")
  {
    assert Ascii("content-length")[8] == 'l' as int && Ascii("content-type")[8] == 't' as int;
    assert |Ascii("host")| == 4 && |Ascii("content-type")| == 12;
  }

  lemma Repeats(headers: seq<Header>)
    ensures CountOf(headers, CONTENT_LENGTH) <= 1 && CountOf(headers, CONTENT_TYPE) <= 1 &&
            CountOf(headers, HOST) <= 1 <==>
            forall i, j :: 0 <= i < j < |headers| && headers[i].name == headers[j].name ==>
              headers[i].name !in {Ascii("content-length"), Ascii("content-type"), Ascii("host")}
  {
    hide CountOf, Ascii;
    CountTwo(headers, CONTENT_LENGTH);
    CountTwo(headers, CONTENT_TYPE);
    CountTwo(headers, HOST);
  }

  /** Fields that go together are refused only for a length that is no number. */
  lemma ConsistentIff(headers: seq<Header>, policy: Policy)
    ensures Consistent(headers, policy) <==>
            GoTogether(headers, policy) && LengthOf(FirstOf(headers, CONTENT_LENGTH)).Some?
  {
    hide CountOf, Ascii, LengthOf, FirstOf;
    Repeats(headers);
    CountTwo(headers, TRANSFER_ENCODING);
  }

  lemma SoleLength(headers: seq<Header>, policy: Policy, i: nat, j: nat)
    requires GoTogether(headers, policy) && i < |headers| && j < |headers|
    requires headers[i].name == headers[j].name == Ascii("content-length")
    ensures i == j
  {
    hide Ascii;
  }

  lemma AnnouncedLength(headers: seq<Header>, policy: Policy, n: nat)
    requires GoTogether(headers, policy) && Announces(headers, n) && n <= 18446744073709551615
    ensures LengthOf(FirstOf(headers, CONTENT_LENGTH)) == Some(n)
  {
    hide Ascii, LengthOf, FirstOf, Written;
    FirstIs(headers, CONTENT_LENGTH);
    NoLength([]);
    WrittenLength(n);
    if i :| 0 <= i < |headers| && headers[i] == Header(Ascii("content-length"), Written(n)) {
      var j :| 0 <= j < |headers| && headers[j] == Header(CONTENT_LENGTH, FirstOf(headers, CONTENT_LENGTH).value);
      SoleLength(headers, policy, i, j);
    }
  }

  // ---- Whole requests ----

  function SpelledLines(spellings: seq<Spelling>, headers: seq<Header>): (lines: seq<Text>)
    requires |spellings| == |headers|
    ensures |lines| == |headers|
  {
    seq(|headers|, i requires 0 <= i < |headers| => SpelledLine(spellings[i], headers[i].value))
  }

  ghost predicate SpellsAll(spellings: seq<Spelling>, headers: seq<Header>) {
    |spellings| == |headers| && forall i :: 0 <= i < |headers| ==> Spells(spellings[i], headers[i])
  }

  lemma SpelledLinesRead(spellings: seq<Spelling>, headers: seq<Header>)
    requires SpellsAll(spellings, headers)
    ensures ReadAs(SpelledLines(spellings, headers), headers)
  {
    hide Spells, SpelledLine, Plain, FieldLine;
    forall i | 0 <= i < |headers|
      ensures Plain(SpelledLines(spellings, headers)[i])
      ensures FieldLine(SpelledLines(spellings, headers)[i]) == Some(headers[i])
    {
      SpelledFieldReads(spellings[i], headers[i]);
    }
  }

  /** A head is refused exactly for more than 128 fields, for fields that do not go together
      or for a length that is no number. */
  lemma HeadRefusedIff(f: Fields, spellings: seq<Spelling>, policy: Policy)
    requires WritableLine(f) && SpellsAll(spellings, f.headers)
    ensures var r := Parse(Compose(f, SpelledLines(spellings, f.headers)), policy);
            && (|f.headers| > 128 ==> r == Err(BadHead(413)))
            && (|f.headers| <= 128 && !GoTogether(f.headers, policy) ==> r == Err(BadHead(400)))
            && (|f.headers| <= 128 && GoTogether(f.headers, policy) ==>
                  && (forall n :: Announces(f.headers, n) && n <= 18446744073709551615 ==>
                        r == Ok(Head(f, n, MaxBody(f, policy))))
                  && (forall n :: Announces(f.headers, n) && n > 18446744073709551615 ==> r == Err(BadHead(400))))
  {
    assert |spellings| == |f.headers|;
    hide Parse, Compose, SpellsAll, WritableLine, Consistent, GoTogether, Announces, LengthOf, FirstOf, MaxBody, Ascii;
    SpelledLinesRead(spellings, f.headers);
    ParseComposed(f, SpelledLines(spellings, f.headers), policy);
    ConsistentIff(f.headers, policy);
    if GoTogether(f.headers, policy) {
      forall n | Announces(f.headers, n)
        ensures LengthOf(FirstOf(f.headers, CONTENT_LENGTH)) == if n <= 18446744073709551615 then Some(n) else None
      {
        if n <= 18446744073709551615 {
          AnnouncedLength(f.headers, policy, n);
        } else {
          TooLong(f.headers, policy, n);
        }
      }
    }
  }

  lemma TooLong(headers: seq<Header>, policy: Policy, n: nat)
    requires GoTogether(headers, policy) && Announces(headers, n) && n > 18446744073709551615
    ensures LengthOf(FirstOf(headers, CONTENT_LENGTH)).None?
  {
    hide Ascii, LengthOf, FirstOf, Written;
    FirstIs(headers, CONTENT_LENGTH);
    WrittenLength(n);
    var i :| 0 <= i < |headers| && headers[i] == Header(Ascii("content-length"), Written(n));
    var j :| 0 <= j < |headers| && headers[j] == Header(CONTENT_LENGTH, FirstOf(headers, CONTENT_LENGTH).value);
    SoleLength(headers, policy, i, j);
  }

  /** A request whose field names are written in any letter case is read back with all
      capitals in its names replaced by small letters, and with the body it announces. */
  lemma AnyCaseRequestIsRead(f: Fields, spellings: seq<Spelling>, policy: Policy, body: Text, more: Text,
                             chunks: seq<seq<Byte>>, ending: Ending)
    requires WritableLine(f) && SpellsAll(spellings, f.headers) && |f.headers| <= 128
    requires GoTogether(f.headers, policy) && Announces(f.headers, |body|) && |body| <= MaxBody(f, policy)
    requires var head := Compose(f, SpelledLines(spellings, f.headers));
             && |head| + 4 <= 65536
             && Concat(chunks) == head + [13, 10, 13, 10] + (body + more) && |Concat(chunks)| <= 16777216
    ensures Reading(chunks, ending, head => Parse(head, policy)) == Ok(Request(f, body))
  {
    assert |spellings| == |f.headers|;
    hide Parse, Reading, Concat, Compose, SpellsAll, WritableLine, Consistent, GoTogether, Announces, LengthOf, FirstOf,
         MaxBody, Ascii, ReadAs;
    SpelledLinesRead(spellings, f.headers);
    ConsistentIff(f.headers, policy);
    var head := Compose(f, SpelledLines(spellings, f.headers));
    assert |Concat(chunks)| == |head| + 4 + (|body| + |more|);
    AnnouncedLength(f.headers, policy, |body|);
    ComposedRequestIsRead(f, SpelledLines(spellings, f.headers), policy, body, more, chunks, ending);
  }

  // ---- The request line ----

  /** A request line is a verb, a path and the version, with one space between them. */
  lemma RequestLineIff(line: Text, verb: Text, path: Text)
    ensures RequestLine(line) == Some((verb, path)) <==>
            && line == verb + [32] + (path + [32] + Ascii("HTTP/1.1"))
            && verb != [] && path != [] && 32 !in verb && 32 !in path
            && forall i :: 0 <= i < |line| ==> line[i] < 128
  {
    hide Split, Ascii;
    VersionPlain();
    if line == verb + [32] + (path + [32] + VERSION) && 32 !in verb && 32 !in path {
      SplitFirst(verb, 32, path + [32] + VERSION);
      SplitFirst(path, 32, VERSION);
      SplitNone(VERSION, 32);
    }
    if RequestLine(line) == Some((verb, path)) {
      JoinedParts(line, 32);
      ThreeParts(Split(line, 32), 32);
    }
  }

  function JoinWith(parts: seq<Text>, b: Byte): Text
    requires parts != []
  {
    if |parts| == 1 then parts[0] else parts[0] + [b] + JoinWith(parts[1..], b)
  }

  lemma {:induction false} JoinedParts(s: Text, b: Byte)
    ensures JoinWith(Split(s, b), b) == s && forall i :: 0 <= i < |Split(s, b)| ==> b !in Split(s, b)[i]
    decreases |s|
  {
    hide IndexOf;
    var i := IndexOf(s, b);
    if i.Some? {
      var rest := s[i.value + 1..];
      JoinedParts(rest, b);
      assert Split(s, b)[1..] == Split(rest, b);
      assert s == s[..i.value] + [b] + rest;
    }
  }

  lemma ThreeParts(parts: seq<Text>, b: Byte)
    requires |parts| == 3
    ensures JoinWith(parts, b) == parts[0] + [b] + (parts[1] + [b] + parts[2])
  {
    assert JoinWith(parts[1..], b) == parts[1] + [b] + JoinWith(parts[1..][1..], b);
    assert parts[1..][1..] == [parts[2]];
  }

  // ---- How long a body may be ----

  /** A source to validate may have 256 KiB, or 4 MiB when the first query pair with the key
      says that the protocol is Datadog. */
  lemma ValidationLimit(f: Fields, policy: Policy, pairs: seq<Text>, first: nat)
    requires f.verb == Ascii("POST")
    requires pairs != [] && forall i :: 0 <= i < |pairs| ==> 38 !in pairs[i]
    requires f.path == Ascii("/validate") + [63] + JoinWith(pairs, 38)
    requires first < |pairs| && Ascii("protocol=") <= pairs[first]
    requires forall i :: 0 <= i < first ==> !(Ascii("protocol=") <= pairs[i])
    ensures MaxBody(f, policy) == if pairs[first] == Ascii("protocol=datadog") then 4194304 else 262144
  {
    hide Split, JoinWith, SplitOnce, QueryValue, Ascii;
    QueryOf(f.path, pairs);
    FirstPair(pairs, first);
    DatadogPair(pairs[first]);
  }

  lemma ValidatePath()
    ensures |Ascii("/validate")| == 9 && 63 !in Ascii("/validate")
    ensures Ascii("POST") != Ascii("PUT")
  {
    assert |Ascii("POST")| == 4 && |Ascii("PUT")| == 3;
  }

  lemma {:induction false} SplitJoined(parts: seq<Text>, b: Byte)
    requires parts != [] && forall i :: 0 <= i < |parts| ==> b !in parts[i]
    ensures Split(JoinWith(parts, b), b) == parts
    decreases |parts|
  {
    hide Split;
    if |parts| == 1 {
      SplitNone(parts[0], b);
    } else {
      SplitJoined(parts[1..], b);
      SplitFirst(parts[0], b, JoinWith(parts[1..], b));
    }
  }

  /** A pair has the key exactly when it begins with the key and an equals sign. */
  lemma PairHasKey(pair: Text)
    ensures var parts := SplitOnce(pair, EQUALS);
            && (parts.Some? && parts.value.0 == Ascii("protocol") <==> Ascii("protocol=") <= pair)
            && (Ascii("protocol=") <= pair ==> parts.value.1 == pair[9..])
  {
    hide IndexOf;
    var key := Ascii("protocol");
    assert Ascii("protocol=") == key + [61] && |key| == 8 && 61 !in key;
    if Ascii("protocol=") <= pair {
      assert pair == key + [61] + pair[9..];
      IndexAt(key, 61, pair[9..]);
    }
    var parts := SplitOnce(pair, EQUALS);
    if parts.Some? && parts.value.0 == key {
      assert pair[..9] == pair[..8] + [pair[8]];
    }
  }

  lemma DatadogPair(pair: Text)
    requires Ascii("protocol=") <= pair
    ensures pair[9..] == Ascii("datadog") <==> pair == Ascii("protocol=datadog")
  {
    assert Ascii("protocol=datadog") == Ascii("protocol=") + Ascii("datadog") && |Ascii("protocol=")| == 9;
    assert pair == pair[..9] + pair[9..] && pair[..9] == Ascii("protocol=");
  }

  lemma {:induction false} FirstPair(pairs: seq<Text>, first: nat)
    requires first < |pairs| && Ascii("protocol=") <= pairs[first]
    requires forall i :: 0 <= i < first ==> !(Ascii("protocol=") <= pairs[i])
    ensures |pairs[first]| >= 9 && QueryValue(pairs, Ascii("protocol")) == Some(pairs[first][9..])
    decreases first
  {
    hide SplitOnce, Ascii;
    KeyLength();
    PairHasKey(pairs[0]);
    if first > 0 {
      FirstPair(pairs[1..], first - 1);
    }
  }

  lemma KeyLength()
    ensures |Ascii("protocol=")| == 9
  {
  }

  /** Without a protocol in the query a source may have 256 KiB. */
  lemma ValidationDefault(f: Fields, policy: Policy, pairs: seq<Text>)
    requires f.verb == Ascii("POST")
    requires pairs != [] && forall i :: 0 <= i < |pairs| ==> 38 !in pairs[i] && !(Ascii("protocol=") <= pairs[i])
    requires f.path == Ascii("/validate") || f.path == Ascii("/validate") + [63] + JoinWith(pairs, 38)
    ensures MaxBody(f, policy) == 262144
  {
    hide Split, JoinWith, SplitOnce, QueryValue, Ascii;
    if f.path == Ascii("/validate") {
      ValidatePath();
      SplitNone(f.path, 63);
      OnceNone(f.path, 63);
    } else {
      QueryOf(f.path, pairs);
      NoPair(pairs);
    }
  }

  lemma OnceNone(s: Text, b: Byte)
    requires b !in s
    ensures SplitOnce(s, b).None?
  {
  }

  lemma QueryOf(path: Text, pairs: seq<Text>)
    requires pairs != [] && forall i :: 0 <= i < |pairs| ==> 38 !in pairs[i]
    requires path == Ascii("/validate") + [63] + JoinWith(pairs, 38)
    ensures Split(path, 63)[0] == Ascii("/validate")
    ensures SplitOnce(path, 63).Some? && Split(SplitOnce(path, 63).value.1, 38) == pairs
  {
    hide Split, JoinWith, IndexOf, Ascii;
    ValidatePath();
    SplitFirst(Ascii("/validate"), 63, JoinWith(pairs, 38));
    IndexAt(Ascii("/validate"), 63, JoinWith(pairs, 38));
    SplitJoined(pairs, 38);
    assert path[10..] == JoinWith(pairs, 38);
  }

  lemma {:induction false} NoPair(pairs: seq<Text>)
    requires forall i :: 0 <= i < |pairs| ==> !(Ascii("protocol=") <= pairs[i])
    ensures QueryValue(pairs, Ascii("protocol")).None?
  {
    hide SplitOnce, Ascii;
    if pairs != [] {
      PairHasKey(pairs[0]);
      NoPair(pairs[1..]);
    }
  }

  /** Native uploads have the limit set for them, OTLP uploads 1 MiB, and everything else
      what a whole request may have. */
  lemma UploadLimits(f: Fields, policy: Policy)
    requires !(f.verb == Ascii("POST") && (f.path == Ascii("/validate") || Ascii("/validate?") <= f.path))
    ensures MaxBody(f, policy) ==
            if (f.verb == Ascii("POST") || f.verb == Ascii("PUT")) && Ascii("/v0.") <= f.path then policy.datadogLimit
            else if f.verb == Ascii("POST") && Ascii("/v1/") <= f.path then 1048576
            else 16777216
  {
    hide Ascii, IndexOf;
    if f.verb == Ascii("POST") {
      PathBeforeQuery(f.path);
    }
  }

  lemma PathBeforeQuery(path: Text)
    ensures Split(path, 63)[0] == Ascii("/validate") <==> path == Ascii("/validate") || Ascii("/validate?") <= path
  {
    hide IndexOf;
    var name := Ascii("/validate");
    assert Ascii("/validate?") == name + [63] && 63 !in name && |name| == 9;
    var i := IndexOf(path, 63);
    assert i.Some? ==> path == path[..i.value] + [63] + path[i.value + 1..];
    if Ascii("/validate?") <= path {
      assert path == name + [63] + path[10..];
      SplitFirst(name, 63, path[10..]);
    } else if path == name {
      SplitNone(path, 63);
    }
  }

  // ---- The limits on a stream ----

  ghost predicate BlankLineAt(s: seq<Byte>, i: nat) {
    i + 4 <= |s| && s[i] == 13 && s[i + 1] == 10 && s[i + 2] == 13 && s[i + 3] == 10
  }

  lemma BlankLines(s: seq<Byte>)
    ensures forall i: nat {:trigger TerminatorAt(s, i)} {:trigger BlankLineAt(s, i)} ::
              TerminatorAt(s, i) <==> BlankLineAt(s, i)
  {
    forall i: nat
      ensures TerminatorAt(s, i) <==> BlankLineAt(s, i)
    {
      if i + 4 <= |s| {
        assert s[i..i + 4] == [s[i], s[i + 1], s[i + 2], s[i + 3]];
      }
    }
  }

  /** The first blank line of the stream stands right behind the head. */
  ghost predicate Heads(stream: seq<Byte>, head: seq<Byte>) {
    head <= stream && BlankLineAt(stream, |head|) && forall i: nat :: i < |head| ==> !BlankLineAt(stream, i)
  }

  lemma HeadFound(stream: seq<Byte>, head: seq<Byte>)
    requires Heads(stream, head)
    ensures Find(stream) == Some(|head|) && stream[..|head|] == head
  {
    hide Find, TerminatorAt, BlankLineAt;
    FindFacts(stream);
    BlankLines(stream);
  }

  lemma NoHead(stream: seq<Byte>)
    requires forall i: nat :: !BlankLineAt(stream, i)
    ensures Find(stream).None?
  {
    hide Find, TerminatorAt, BlankLineAt;
    FindFacts(stream);
    BlankLines(stream);
  }

  /** A stream without a blank line: too long a head from 64 KiB on, otherwise an early end. */
  lemma EndlessHead<F>(chunks: seq<seq<Byte>>, ending: Ending, parse: Parser<F>)
    requires |Concat(chunks)| <= 16777216 && forall i: nat :: !BlankLineAt(Concat(chunks), i)
    ensures Reading(chunks, ending, parse) ==
            Err(if |Concat(chunks)| >= 65536 then HeadersTooLarge else Stopped(ending, false))
  {
    hide Reading, Concat, Find;
    NoHead(Concat(chunks));
    ReadingOfStream(chunks, ending, parse);
  }

  /** A stream with a blank line: a head of more than 64 KiB is refused, then what the parser
      refuses, then a body of more than its limit or a request of more than 16 MiB; what is
      left is the announced body or an early end. */
  lemma WholeRequest<F>(chunks: seq<seq<Byte>>, ending: Ending, parse: Parser<F>, head: seq<Byte>)
    requires |Concat(chunks)| <= 16777216 && Heads(Concat(chunks), head)
    ensures var rest := Concat(chunks)[|head| + 4..];
            Reading(chunks, ending, parse) ==
              if |head| + 4 > 65536 then Err(HeadersTooLarge)
              else
                match parse(head)
                case Err(rejection) => Err(rejection)
                case Ok(h) =>
                  if h.contentLength > h.maxBody || |head| + 4 + h.contentLength > 16777216 then Err(BodyTooLarge)
                  else if |rest| < h.contentLength then Err(Stopped(ending, true))
                  else Ok(Request(h.fields, rest[..h.contentLength]))
  {
    hide Reading, Concat, Find;
    HeadFound(Concat(chunks), head);
    ReadingOfStream(chunks, ending, parse);
    var stream := Concat(chunks);
    if parse(head).Ok? {
      var n := parse(head).value.contentLength;
      if |stream| >= |head| + 4 + n {
        assert stream[|head| + 4..|head| + 4 + n] == stream[|head| + 4..][..n];
      }
    }
  }

  /** Whether the delivery in reads of at most 8 KiB matters: not for streams of at most
      16 MiB, not for heads that are refused, and not for requests that end at least 8191
      bytes before the limit; for all others it does. */
  lemma DeliveryMattersIff<F>(stream: seq<Byte>, ending: Ending, parse: Parser<F>, head: seq<Byte>)
    requires Heads(stream, head) && |head| + 4 <= 65536
    ensures (|stream| <= 16777216 || parse(head).Err? || parse(head).value.contentLength > parse(head).value.maxBody
             || |head| + 4 + parse(head).value.contentLength > 16777216
             || |head| + 4 + parse(head).value.contentLength <= 16777216 - 8191) <==>
            forall chunks :: Concat(chunks) == stream && (forall i :: 0 <= i < |chunks| ==> 0 < |chunks[i]| <= 8192) ==>
              Reading(chunks, ending, parse) == Meaning(stream, ending, parse)
  {
    hide Reading, Concat, Find, Meaning;
    HeadFound(stream, head);
    ReadingIndependentIffRoomy(stream, ending, parse);
    assert forall chunks :: Reads(chunks) <==> forall i :: 0 <= i < |chunks| ==> 0 < |chunks[i]| <= 8192;
  }
}
