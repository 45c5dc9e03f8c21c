/** The head of a request: its request line, its fields, and the body they announce. */
module HttpHead {
  import opened Basics
  import opened Wrappers
  import opened HttpRequest

  type Text = seq<Byte>

  const MAX_HEADER_COUNT: nat := 128
  const MAX_BODY_BYTES: nat := 1024 * 1024
  const MAX_SOURCE_BYTES: nat := 256 * 1024
  const MAX_DATADOG_SOURCE_BYTES: nat := 4 * 1024 * 1024
  const USIZE_RANGE: nat := 0x1_0000_0000_0000_0000

  const CR: Byte := 13
  const LF: Byte := 10
  const SPACE: Byte := 32
  const TAB: Byte := 9
  const COLON: Byte := 58
  const QUERY: Byte := 63
  const AMPERSAND: Byte := 38
  const EQUALS: Byte := 61

  const VERSION: Text := Ascii("HTTP/1.1")
  const CONTENT_LENGTH: Text := Ascii("content-length")
  const CONTENT_TYPE: Text := Ascii("content-type")
  const HOST: Text := Ascii("host")
  const TRANSFER_ENCODING: Text := Ascii("transfer-encoding")

  datatype Header = Header(name: Text, value: Text)

  datatype Fields = Fields(verb: Text, path: Text, headers: seq<Header>)

  // The check of bracketed IPv6 hosts, and the limit for Datadog uploads, are parameters.
  datatype Policy = Policy(validHost: Text -> bool, datadogLimit: nat)

  // ---- Splitting ----

  function IndexOf(s: Text, b: Byte): (r: Option<nat>)
    ensures r.None? <==> b !in s
    ensures r.Some? ==> r.value < |s| && s[r.value] == b && b !in s[..r.value]
  {
    if s == [] then None
    else if s[0] == b then Some(0)
    else
      var rest := IndexOf(s[1..], b);
      if rest.None? then None else IndexOfLater(s, b, rest.value); Some(rest.value + 1)
  }

  lemma IndexOfLater(s: Text, b: Byte, i: nat)
    requires s != [] && s[0] != b && i < |s[1..]| && b !in s[1..][..i]
    ensures b !in s[..i + 1]
  {
    assert s[..i + 1] == [s[0]] + s[1..][..i];
  }

  function Split(s: Text, b: Byte): (parts: seq<Text>)
    ensures parts != []
    decreases |s|
  {
    var i := IndexOf(s, b);
    if i.None? then [s] else [s[..i.value]] + Split(s[i.value + 1..], b)
  }

  lemma {:induction false} IndexAt(a: Text, b: Byte, rest: Text)
    requires b !in a
    ensures IndexOf(a + [b] + rest, b) == Some(|a|)
    decreases |a|
  {
    var s := a + [b] + rest;
    if a != [] {
      assert forall x :: x in a[1..] ==> x in a;
      IndexAt(a[1..], b, rest);
      assert s[1..] == a[1..] + [b] + rest;
      assert s[0] == a[0];
    }
  }

  lemma SplitFirst(a: Text, b: Byte, rest: Text)
    requires b !in a
    ensures Split(a + [b] + rest, b) == [a] + Split(rest, b)
  {
    hide IndexOf;
    var s := a + [b] + rest;
    IndexAt(a, b, rest);
    assert s[..|a|] == a && s[|a| + 1..] == rest;
  }

  lemma SplitNone(a: Text, b: Byte)
    requires b !in a
    ensures Split(a, b) == [a]
  {
  }

  // ---- Characters ----

  predicate IsUpper(b: Byte) { 65 <= b <= 90 }

  predicate IsDigit(b: Byte) { 48 <= b <= 57 }

  function LowerByte(b: Byte): Byte {
    if IsUpper(b) then b + 32 else b
  }

  function Lower(s: Text): (r: Text)
    ensures |r| == |s|
  {
    seq(|s|, i requires 0 <= i < |s| => LowerByte(s[i]))
  }

  predicate IsTokenByte(b: Byte) {
    IsUpper(b) || 97 <= b <= 122 || IsDigit(b) ||
    b in [33, 35, 36, 37, 38, 39, 42, 43, 45, 46, 94, 95, 96, 124, 126]
  }

  predicate IsToken(s: Text) {
    s != [] && forall i :: 0 <= i < |s| ==> IsTokenByte(s[i])
  }

  predicate IsFieldValue(s: Text) {
    forall i :: 0 <= i < |s| ==> s[i] == TAB || (s[i] >= 32 && s[i] != 127)
  }

  predicate IsBlank(b: Byte) {
    b == SPACE || b == TAB
  }

  function TrimStart(s: Text): Text {
    if s != [] && IsBlank(s[0]) then TrimStart(s[1..]) else s
  }

  function TrimEnd(s: Text): Text {
    if s != [] && IsBlank(s[|s| - 1]) then TrimEnd(s[..|s| - 1]) else s
  }

  function Trim(s: Text): Text {
    TrimEnd(TrimStart(s))
  }

  method TrimFieldValue(s: Text) returns (value: Text)
    ensures value == Trim(s)
  {
    value := s;
    while value != [] && IsBlank(value[0])
      invariant TrimStart(s) == TrimStart(value)
      decreases |value|
    {
      value := value[1..];
    }
    while value != [] && IsBlank(value[|value| - 1])
      invariant Trim(s) == TrimEnd(value)
      decreases |value|
    {
      value := value[..|value| - 1];
    }
  }

  // ---- Lines ----

  /** A line without its ending; a carriage return is required exactly before a line feed. */
  function HttpLine(line: Text, terminated: bool): Option<Text> {
    if terminated then
      if line != [] && line[|line| - 1] == CR then Some(line[..|line| - 1]) else None
    else if CR in line || LF in line then None
    else Some(line)
  }

  predicate IsAscii(s: Text) {
    forall i :: 0 <= i < |s| ==> s[i] < 128
  }

  function RequestLine(line: Text): Option<(Text, Text)> {
    var parts := Split(line, SPACE);
    if !IsAscii(line) || |parts| != 3 || parts[0] == [] || parts[1] == [] || parts[2] != VERSION then None
    else Some((parts[0], parts[1]))
  }

  function FieldLine(line: Text): Option<Header> {
    var colon := IndexOf(line, COLON);
    if colon.None? then None
    else
      var name, value := line[..colon.value], line[colon.value + 1..];
      if !IsToken(name) || !IsFieldValue(value) then None else Some(Header(Lower(name), Trim(value)))
  }

  /** The fields of all lines but the first, or the status that refuses them. */
  function FieldLines(lines: seq<Text>, headers: seq<Header>): Result<seq<Header>, Rejection> {
    if lines == [] then Ok(headers)
    else
      var line := HttpLine(lines[0], |lines| > 1);
      if line.None? then Err(BadHead(400))
      else if |headers| >= MAX_HEADER_COUNT then Err(BadHead(413))
      else
        var header := FieldLine(line.value);
        if header.None? then Err(BadHead(400)) else FieldLines(lines[1..], headers + [header.value])
  }

  // ---- What the fields must be ----

  function CountOf(headers: seq<Header>, name: Text): nat {
    if headers == [] then 0
    else CountOf(headers[..|headers| - 1], name) + if headers[|headers| - 1].name == name then 1 else 0
  }

  function FirstOf(headers: seq<Header>, name: Text): Option<Text> {
    if headers == [] then None
    else if headers[0].name == name then Some(headers[0].value)
    else FirstOf(headers[1..], name)
  }

  function Number(s: Text): nat
    requires forall i :: 0 <= i < |s| ==> IsDigit(s[i])
  {
    if s == [] then 0
    else
      var last := s[|s| - 1];
      assert IsDigit(last);
      10 * Number(s[..|s| - 1]) + (last - 48)
  }

  /** The announced length: none means zero, and it must fit the machine word. */
  function LengthOf(value: Option<Text>): Option<nat> {
    if value.None? then Some(0)
    else if value.value == [] || exists i :: 0 <= i < |value.value| && !IsDigit(value.value[i]) then None
    else
      var n := Number(value.value);
      if n < USIZE_RANGE then Some(n) else None
  }

  predicate HostsValid(headers: seq<Header>, policy: Policy) {
    forall i :: 0 <= i < |headers| && headers[i].name == HOST && headers[i].value != [] && headers[i].value[0] == 91 ==>
      policy.validHost(headers[i].value)
  }

  predicate Consistent(headers: seq<Header>, policy: Policy) {
    && HostsValid(headers, policy)
    && CountOf(headers, TRANSFER_ENCODING) == 0
    && CountOf(headers, CONTENT_LENGTH) <= 1 && CountOf(headers, CONTENT_TYPE) <= 1 && CountOf(headers, HOST) <= 1
    && LengthOf(FirstOf(headers, CONTENT_LENGTH)).Some?
  }

  /** The two sides of the first occurrence of a byte. */
  function SplitOnce(s: Text, b: Byte): Option<(Text, Text)> {
    var i := IndexOf(s, b);
    if i.None? then None else Some((s[..i.value], s[i.value + 1..]))
  }

  /** The value of the first pair with the key. */
  function QueryValue(pairs: seq<Text>, key: Text): Option<Text> {
    if pairs == [] then None
    else
      var pair := SplitOnce(pairs[0], EQUALS);
      if pair.Some? && pair.value.0 == key then Some(pair.value.1) else QueryValue(pairs[1..], key)
  }

  predicate StartsWith(s: Text, prefix: Text) {
    prefix <= s
  }

  /** The largest body accepted for the request. */
  function MaxBody(f: Fields, policy: Policy): nat {
    var post, put := f.verb == Ascii("POST"), f.verb == Ascii("PUT");
    if post && Split(f.path, QUERY)[0] == Ascii("/validate") then
      var query := SplitOnce(f.path, QUERY);
      if query.Some? && QueryValue(Split(query.value.1, AMPERSAND), Ascii("protocol")) == Some(Ascii("datadog"))
      then MAX_DATADOG_SOURCE_BYTES else MAX_SOURCE_BYTES
    else if (post || put) && StartsWith(f.path, Ascii("/v0.")) then policy.datadogLimit
    else if post && StartsWith(f.path, Ascii("/v1/")) then MAX_BODY_BYTES
    else MAX_REQUEST_BYTES
  }

  /** The head parser: request line, fields, and the body they announce. */
  function Parse(head: Text, policy: Policy): Result<Head<Fields>, Rejection> {
    var lines := Split(head, LF);
    var first := HttpLine(lines[0], |lines| > 1);
    if first.None? then Err(BadHead(400))
    else
      var request := RequestLine(first.value);
      if request.None? then Err(BadHead(400))
      else
        match FieldLines(lines[1..], [])
        case Err(rejection) => Err(rejection)
        case Ok(headers) =>
          if !Consistent(headers, policy) then Err(BadHead(400))
          else
            var fields := Fields(request.value.0, request.value.1, headers);
            Ok(Head(fields, LengthOf(FirstOf(headers, CONTENT_LENGTH)).value, MaxBody(fields, policy)))
  }

  method ParseFieldLines(lines: seq<Text>) returns (r: Result<seq<Header>, Rejection>)
    ensures r == FieldLines(lines, [])
  {
    var headers: seq<Header> := [];
    for i := 0 to |lines|
      invariant FieldLines(lines, []) == FieldLines(lines[i..], headers)
    {
      var line := HttpLine(lines[i], i + 1 < |lines|);
      if line.None? {
        return Err(BadHead(400));
      }
      if |headers| >= MAX_HEADER_COUNT {
        return Err(BadHead(413));
      }
      var header := FieldLine(line.value);
      if header.None? {
        return Err(BadHead(400));
      }
      assert lines[i..][1..] == lines[i + 1..];
      headers := headers + [header.value];
    }
    r := Ok(headers);
  }

  // ---- Writing a head ----

  /** A request line that can be written and read back. */
  ghost predicate WritableLine(f: Fields) {
    && f.verb != [] && f.path != [] && IsAscii(f.verb) && IsAscii(f.path)
    && (forall b :: b in f.verb || b in f.path ==> b != SPACE && b != CR && b != LF)
  }

  /** Fields that can be written and read back. */
  ghost predicate Writable(f: Fields, policy: Policy) {
    && WritableLine(f)
    && |f.headers| <= MAX_HEADER_COUNT
    && (forall i :: 0 <= i < |f.headers| ==> WritableHeader(f.headers[i]))
    && Consistent(f.headers, policy)
  }

  ghost predicate WritableHeader(h: Header) {
    IsToken(h.name) && Lower(h.name) == h.name && IsFieldValue(h.value) && Trim(h.value) == h.value
  }

  function HeaderLine(h: Header): Text {
    h.name + [COLON] + ([SPACE] + h.value)
  }

  function HeaderLines(headers: seq<Header>): seq<Text> {
    seq(|headers|, i requires 0 <= i < |headers| => HeaderLine(headers[i]))
  }

  function FirstLine(f: Fields): Text {
    f.verb + [SPACE] + (f.path + [SPACE] + VERSION)
  }

  /** Lines joined by carriage return and line feed. */
  function Join(lines: seq<Text>): Text
    requires lines != []
  {
    if |lines| == 1 then lines[0] else lines[0] + [CR] + [LF] + Join(lines[1..])
  }

  /** A head of the request line and any further lines. */
  function Compose(f: Fields, lines: seq<Text>): Text {
    Join([FirstLine(f)] + lines)
  }

  function Render(f: Fields): Text {
    Compose(f, HeaderLines(f.headers))
  }

  ghost predicate Plain(line: Text) {
    line != [] && CR !in line && LF !in line
  }

  function Terminated(lines: seq<Text>): seq<Text>
    requires lines != []
  {
    seq(|lines|, i requires 0 <= i < |lines| => if i < |lines| - 1 then lines[i] + [CR] else lines[i])
  }

  lemma {:induction false} SplitJoin(lines: seq<Text>)
    requires lines != [] && forall i :: 0 <= i < |lines| ==> Plain(lines[i])
    ensures Split(Join(lines), LF) == Terminated(lines)
    decreases |lines|
  {
    hide Split;
    if |lines| == 1 {
      SplitNone(lines[0], LF);
      assert Terminated(lines) == [lines[0]];
    } else {
      SplitJoin(lines[1..]);
      SplitFirst(lines[0] + [CR], LF, Join(lines[1..]));
      assert Terminated(lines) == [lines[0] + [CR]] + Terminated(lines[1..]);
    }
  }

  lemma FirstLinePlain(f: Fields)
    requires WritableLine(f)
    ensures Plain(FirstLine(f)) && RequestLine(FirstLine(f)) == Some((f.verb, f.path))
  {
    hide Split;
    VersionPlain();
    var tail := f.path + [SPACE] + VERSION;
    SplitFirst(f.verb, SPACE, tail);
    SplitFirst(f.path, SPACE, VERSION);
    SplitNone(VERSION, SPACE);
  }

  lemma VersionPlain()
    ensures IsAscii(VERSION) && forall b :: b in VERSION ==> b != SPACE && b != CR && b != LF
  {
  }

  lemma HeaderLinePlain(h: Header)
    requires WritableHeader(h)
    ensures Plain(HeaderLine(h)) && FieldLine(HeaderLine(h)) == Some(h)
  {
    hide IsToken, IsFieldValue, IndexOf, Trim, Lower;
    var line := HeaderLine(h);
    var value := [SPACE] + h.value;
    TokenPlain(h.name);
    SpacedValue(h.value);
    IndexAt(h.name, COLON, value);
    assert line[..|h.name|] == h.name && line[|h.name| + 1..] == value;
  }

  lemma SpacedValue(value: Text)
    requires IsFieldValue(value)
    ensures IsFieldValue([SPACE] + value) && Trim([SPACE] + value) == Trim(value)
    ensures CR !in [SPACE] + value && LF !in [SPACE] + value
  {
    hide TrimEnd;
    assert ([SPACE] + value)[1..] == value;
  }

  lemma TokenPlain(name: Text)
    requires IsToken(name)
    ensures CR !in name && LF !in name && COLON !in name
  {
  }

  /** The first terminated line and the terminated rest. */
  lemma TerminatedParts(lines: seq<Text>)
    requires lines != []
    ensures var all := Terminated(lines);
            && |all| == |lines|
            && (|lines| == 1 ==> all[0] == lines[0])
            && (|lines| > 1 ==> all[0] == lines[0] + [CR] && all[1..] == Terminated(lines[1..]))
  {
  }

  lemma LineOf(line: Text, terminated: bool)
    requires Plain(line)
    ensures HttpLine(if terminated then line + [CR] else line, terminated) == Some(line)
  {
    assert (line + [CR])[..|line|] == line;
  }

  /** The lines are plain and read as the headers, one by one. */
  ghost predicate ReadAs(lines: seq<Text>, headers: seq<Header>) {
    |lines| == |headers| && forall i :: 0 <= i < |lines| ==> Plain(lines[i]) && FieldLine(lines[i]) == Some(headers[i])
  }

  lemma {:induction false} FieldLinesOf(lines: seq<Text>, headers: seq<Header>, before: seq<Header>)
    requires lines != [] && ReadAs(lines, headers)
    ensures FieldLines(Terminated(lines), before) ==
            if |before| + |headers| <= MAX_HEADER_COUNT then Ok(before + headers) else Err(BadHead(413))
    decreases |lines|
  {
    hide FieldLine, HttpLine, Terminated, Plain;
    TerminatedParts(lines);
    LineOf(lines[0], |lines| > 1);
    assert headers == [headers[0]] + headers[1..];
    if |lines| > 1 {
      if |before| < MAX_HEADER_COUNT {
        FieldLinesOf(lines[1..], headers[1..], before + [headers[0]]);
        assert before + [headers[0]] + headers[1..] == before + headers;
      }
    } else {
      assert Terminated(lines)[1..] == [] && headers == [headers[0]];
      assert FieldLines([], before + headers) == Ok(before + headers);
    }
  }

  lemma NoFieldLines()
    ensures FieldLines([], []) == Ok([])
  {
  }

  /** What becomes of a head whose lines can be read: too many fields, fields that do not go
      together, or the fields. */
  lemma ParseComposed(f: Fields, lines: seq<Text>, policy: Policy)
    requires WritableLine(f) && ReadAs(lines, f.headers)
    ensures Parse(Compose(f, lines), policy) ==
            if |f.headers| > MAX_HEADER_COUNT then Err(BadHead(413))
            else if !Consistent(f.headers, policy) then Err(BadHead(400))
            else Ok(Head(f, LengthOf(FirstOf(f.headers, CONTENT_LENGTH)).value, MaxBody(f, policy)))
  {
    hide Consistent, MaxBody, Terminated, FieldLines, HttpLine, RequestLine, Split, Join, LengthOf, FirstLine, Plain,
         FieldLine, WritableLine;
    var all := [FirstLine(f)] + lines;
    FirstLinePlain(f);
    AllPlain(f, lines);
    SplitJoin(all);
    TerminatedParts(all);
    LineOf(all[0], |all| > 1);
    assert all[1..] == lines;
    if lines == [] {
      assert Terminated(all)[1..] == [];
      NoFieldLines();
    } else {
      FieldLinesOf(lines, f.headers, []);
      assert [] + f.headers == f.headers;
    }
    ConsistentLength(f.headers, policy);
  }

  lemma ConsistentLength(headers: seq<Header>, policy: Policy)
    ensures Consistent(headers, policy) ==> LengthOf(FirstOf(headers, CONTENT_LENGTH)).Some?
  {
  }

  lemma AllPlain(f: Fields, lines: seq<Text>)
    requires WritableLine(f) && ReadAs(lines, f.headers)
    ensures forall i :: 0 <= i < |[FirstLine(f)] + lines| ==> Plain(([FirstLine(f)] + lines)[i])
  {
    hide Plain, FirstLine, FieldLine, WritableLine;
    FirstLinePlain(f);
  }

  lemma RenderedLines(headers: seq<Header>)
    requires forall i :: 0 <= i < |headers| ==> WritableHeader(headers[i])
    ensures ReadAs(HeaderLines(headers), headers)
  {
    hide Plain, FieldLine, WritableHeader, HeaderLine;
    forall i | 0 <= i < |headers|
      ensures Plain(HeaderLines(headers)[i]) && FieldLine(HeaderLines(headers)[i]) == Some(headers[i])
    {
      HeaderLinePlain(headers[i]);
    }
  }

  /** A written head reads back as the same fields. */
  lemma ParseRender(f: Fields, policy: Policy)
    requires Writable(f, policy)
    ensures Parse(Render(f), policy) ==
            Ok(Head(f, LengthOf(FirstOf(f.headers, CONTENT_LENGTH)).value, MaxBody(f, policy)))
  {
    hide Consistent, MaxBody, Parse, Compose, HeaderLines, WritableHeader, LengthOf, WritableLine;
    RenderedLines(f.headers);
    ParseComposed(f, HeaderLines(f.headers), policy);
    ConsistentLength(f.headers, policy);
  }

  // ---- The terminator stands behind the head ----

  /** Joined plain lines hold no empty line, so a terminator can only begin at their end. */
  lemma {:induction false} NoTerminatorInside(lines: seq<Text>, rest: Text, i: nat)
    requires lines != [] && forall k :: 0 <= k < |lines| ==> Plain(lines[k])
    requires i < |Join(lines)|
    ensures !TerminatorAt(Join(lines) + TERMINATOR + rest, i)
    decreases |lines|
  {
    hide Plain;
    var s := Join(lines) + TERMINATOR + rest;
    TerminatorBytes(s, i);
    assert Plain(lines[0]);
    if i < |lines[0]| {
      PlainByte(lines[0], i);
      assert s[i] == lines[0][i];
    } else {
      assert |lines| > 1;
      var tail := Join(lines[1..]);
      assert Plain(lines[1]);
      PlainNotEmpty(lines[1]);
      PlainByte(lines[1], 0);
      var n := |lines[0]|;
      assert s == (lines[0] + [CR, LF]) + (tail + TERMINATOR + rest);
      assert tail[0] == lines[1][0];
      assert s[n + 1] == LF && s[n + 2] == tail[0];
      if i >= n + 2 {
        NoTerminatorInside(lines[1..], rest, i - (n + 2));
        TerminatorShift(lines[0] + [CR, LF], tail + TERMINATOR + rest, i);
      }
    }
  }

  lemma TerminatorBytes(s: Text, i: nat)
    ensures TerminatorAt(s, i) ==> i + 4 <= |s| && s[i] == CR && s[i + 1] == LF && s[i + 2] == CR
  {
    if TerminatorAt(s, i) {
      assert s[i] == s[i..i + 4][0] && s[i + 1] == s[i..i + 4][1] && s[i + 2] == s[i..i + 4][2];
    }
  }

  lemma TerminatorShift(a: Text, b: Text, i: nat)
    requires i >= |a|
    ensures TerminatorAt(a + b, i) <==> TerminatorAt(b, i - |a|)
  {
    if i + 4 <= |a| + |b| {
      assert (a + b)[i..i + 4] == b[i - |a|..i - |a| + 4];
    }
  }

  lemma PlainNotEmpty(line: Text)
    requires Plain(line)
    ensures line != []
  {
  }

  lemma PlainByte(line: Text, i: nat)
    requires Plain(line) && i < |line|
    ensures line[i] != CR && line[i] != LF
  {
  }

  lemma TerminatorBehind(lines: seq<Text>, rest: Text)
    requires lines != [] && forall k :: 0 <= k < |lines| ==> Plain(lines[k])
    ensures Find(Join(lines) + TERMINATOR + rest) == Some(|Join(lines)|)
  {
    hide Find, Plain, TerminatorAt, Join;
    var s := Join(lines) + TERMINATOR + rest;
    forall i: nat | i < |Join(lines)|
      ensures !TerminatorAt(s, i)
    {
      NoTerminatorInside(lines, rest, i);
    }
    TerminatorHere(Join(lines), rest);
    FindFacts(s);
  }

  lemma TerminatorHere(head: Text, rest: Text)
    ensures TerminatorAt(head + TERMINATOR + rest, |head|)
  {
    var s := head + TERMINATOR + rest;
    assert s[|head|..|head| + 4] == TERMINATOR;
  }

  /** A request whose lines can be read, with the announced body and however it is delivered,
      is read back exactly; whatever follows the body is ignored. */
  lemma ComposedRequestIsRead(f: Fields, lines: seq<Text>, policy: Policy, body: Text, more: Text,
                              chunks: seq<seq<Byte>>, ending: Ending)
    requires WritableLine(f) && ReadAs(lines, f.headers) && |f.headers| <= MAX_HEADER_COUNT
    requires Consistent(f.headers, policy) && LengthOf(FirstOf(f.headers, CONTENT_LENGTH)) == Some(|body|)
    requires |body| <= MaxBody(f, policy) && |Compose(f, lines)| + 4 <= MAX_HEADER_BYTES
    requires Concat(chunks) == Compose(f, lines) + TERMINATOR + (body + more)
    requires |Concat(chunks)| <= MAX_REQUEST_BYTES
    ensures Reading(chunks, ending, head => Parse(head, policy)) == Ok(Request(f, body))
  {
    hide WritableLine, MaxBody, Parse, Join, Reading, Find, LengthOf, Concat, Consistent, ReadAs;
    var parse: Parser<Fields> := head => Parse(head, policy);
    var head := Compose(f, lines);
    var stream := head + TERMINATOR + (body + more);
    AllPlain(f, lines);
    TerminatorBehind([FirstLine(f)] + lines, body + more);
    ParseComposed(f, lines, policy);
    ReadingOfStream(chunks, ending, parse);
    assert stream[..|head|] == head;
    assert stream[|head| + 4..|head| + 4 + |body|] == body;
    assert RequestEnd(head, parse) == Ok((f, |body|));
  }

  /** A request of valid fields and the announced body, however it is delivered, is read
      back exactly; whatever follows the body is ignored. */
  lemma WrittenRequestIsRead(f: Fields, policy: Policy, body: Text, more: Text, chunks: seq<seq<Byte>>, ending: Ending)
    requires Writable(f, policy) && LengthOf(FirstOf(f.headers, CONTENT_LENGTH)) == Some(|body|)
    requires |body| <= MaxBody(f, policy) && |Render(f)| + 4 <= MAX_HEADER_BYTES
    requires Concat(chunks) == Render(f) + TERMINATOR + (body + more) && |Concat(chunks)| <= MAX_REQUEST_BYTES
    ensures Reading(chunks, ending, head => Parse(head, policy)) == Ok(Request(f, body))
  {
    hide WritableLine, MaxBody, Parse, Reading, LengthOf, Concat, Consistent, WritableHeader, HeaderLines, Compose,
         ReadAs;
    RenderedLines(f.headers);
    ComposedRequestIsRead(f, HeaderLines(f.headers), policy, body, more, chunks, ending);
  }
}
