/** Reading one HTTP request from a connection that delivers it in arbitrary pieces. */
module HttpRequest {
  import opened Basics
  import opened Wrappers

  const MAX_REQUEST_BYTES: nat := 16 * 1024 * 1024
  const MAX_HEADER_BYTES: nat := 64 * 1024
  const READ_BYTES: nat := 8192
  const TERMINATOR: seq<Byte> := [13, 10, 13, 10]

  // The connection ends with end of stream or with a failing read.
  datatype Ending = EndOfStream | ReadFailure

  datatype Rejection =
    | HeadersTooLarge
    | BodyTooLarge
    | Stopped(ending: Ending, inBody: bool)
    | BadHead(status: nat)

  // What the head determines: its fields, the body's length and the largest length
  // accepted for this kind of request.
  datatype Head<F> = Head(fields: F, contentLength: nat, maxBody: nat)

  datatype Request<F> = Request(fields: F, body: seq<Byte>)

  type Parser<!F> = seq<Byte> -> Result<Head<F>, Rejection>

  // ---- The terminator ----

  predicate TerminatorAt(s: seq<Byte>, i: nat) {
    i + 4 <= |s| && s[i..i + 4] == TERMINATOR
  }

  ghost predicate FirstTerminator(s: seq<Byte>, i: nat) {
    TerminatorAt(s, i) && forall j: nat {:trigger TerminatorAt(s, j)} :: j < i ==> !TerminatorAt(s, j)
  }

  function FindFrom(s: seq<Byte>, i: nat): (r: Option<nat>)
    requires i <= |s|
    ensures r.Some? ==> r.value >= i && TerminatorAt(s, r.value)
    ensures forall j: nat {:trigger TerminatorAt(s, j)} :: i <= j && (r.Some? ==> j < r.value) ==> !TerminatorAt(s, j)
    decreases |s| - i
  {
    if TerminatorAt(s, i) then Some(i) else if i == |s| then None else FindFrom(s, i + 1)
  }

  /** The position of the first terminator. */
  function Find(s: seq<Byte>): (r: Option<nat>)
    ensures r.Some? ==> FirstTerminator(s, r.value)
    ensures r.None? ==> forall j: nat {:trigger TerminatorAt(s, j)} :: !TerminatorAt(s, j)
  {
    FindFrom(s, 0)
  }

  lemma SameTerminator(a: seq<Byte>, b: seq<Byte>, i: nat)
    requires a <= b
    ensures i + 4 <= |a| ==> (TerminatorAt(a, i) <==> TerminatorAt(b, i))
    ensures TerminatorAt(a, i) ==> TerminatorAt(b, i)
  {
    if i + 4 <= |a| {
      assert a[i..i + 4] == b[i..i + 4];
    }
  }

  /** A prefix shows the first terminator exactly when it is long enough. */
  lemma FindInPrefix(a: seq<Byte>, b: seq<Byte>)
    requires a <= b
    ensures Find(a) == if Find(b).Some? && Find(b).value + 4 <= |a| then Find(b) else None
  {
    hide Find, TerminatorAt;
    FindFacts(a);
    FindFacts(b);
    forall i: nat
      ensures TerminatorAt(a, i) ==> TerminatorAt(b, i) && i + 4 <= |a|
      ensures i + 4 <= |a| && TerminatorAt(b, i) ==> TerminatorAt(a, i)
    {
      SameTerminator(a, b, i);
      TerminatorFits(a, i);
    }
  }

  lemma TerminatorFits(a: seq<Byte>, i: nat)
    ensures TerminatorAt(a, i) ==> i + 4 <= |a|
  {
  }

  lemma FindFacts(s: seq<Byte>)
    ensures Find(s).Some? ==> TerminatorAt(s, Find(s).value)
    ensures Find(s).Some? ==> forall j: nat {:trigger TerminatorAt(s, j)} :: j < Find(s).value ==> !TerminatorAt(s, j)
    ensures Find(s).None? ==> forall j: nat {:trigger TerminatorAt(s, j)} :: !TerminatorAt(s, j)
  {
  }

  // ---- The request a whole stream means ----

  /** The request that a byte stream carries, however it is delivered. */
  function Meaning<F>(stream: seq<Byte>, ending: Ending, parse: Parser<F>): Result<Request<F>, Rejection> {
    var at := Find(stream);
    if at.None? then Err(if |stream| >= MAX_HEADER_BYTES then HeadersTooLarge else Stopped(ending, false))
    else if at.value + 4 > MAX_HEADER_BYTES then Err(HeadersTooLarge)
    else
      match RequestEnd(stream[..at.value], parse)
      case Err(rejection) => Err(rejection)
      case Ok((fields, length)) =>
        var end := at.value + 4 + length;
        if |stream| < end then Err(Stopped(ending, true)) else Ok(Request(fields, stream[at.value + 4..end]))
  }

  /** The fields of a head and the length of its body, unless they are refused. */
  function RequestEnd<F>(head: seq<Byte>, parse: Parser<F>): Result<(F, nat), Rejection> {
    match parse(head)
    case Err(rejection) => Err(rejection)
    case Ok(h) =>
      if h.contentLength > h.maxBody || |head| + 4 + h.contentLength > MAX_REQUEST_BYTES then Err(BodyTooLarge)
      else Ok((h.fields, h.contentLength))
  }

  // ---- Reading ----

  function Concat(chunks: seq<seq<Byte>>): seq<Byte> {
    if chunks == [] then [] else chunks[0] + Concat(chunks[1..])
  }

  /** Reads until the terminator is seen; the result holds what was read, what was not,
      and where the head ends. */
  function ReadHead(bytes: seq<Byte>, rest: seq<seq<Byte>>,
                    ending: Ending): (r: Result<(seq<Byte>, seq<seq<Byte>>, nat), Rejection>)
    ensures r.Ok? ==> r.value.2 + 4 <= |r.value.0|
    decreases |rest|
  {
    var at := Find(bytes);
    if at.Some? then
      if at.value + 4 > MAX_HEADER_BYTES then Err(HeadersTooLarge) else Ok((bytes, rest, at.value))
    else if |bytes| >= MAX_HEADER_BYTES then Err(HeadersTooLarge)
    else if rest == [] then Err(Stopped(ending, false))
    else ReadHead(bytes + rest[0], rest[1..], ending)
  }

  function ReadBody(bytes: seq<Byte>, rest: seq<seq<Byte>>, end: nat, ending: Ending): (r: Result<seq<Byte>, Rejection>)
    ensures r.Ok? ==> |r.value| == end
    decreases |rest|
  {
    if |bytes| >= end then Ok(bytes[..end])
    else if rest == [] then Err(Stopped(ending, true))
    else if |bytes| + |rest[0]| > MAX_REQUEST_BYTES then Err(BodyTooLarge)
    else ReadBody(bytes + rest[0], rest[1..], end, ending)
  }

  /** What the reader makes of the pieces. */
  function Reading<F>(chunks: seq<seq<Byte>>, ending: Ending, parse: Parser<F>): Result<Request<F>, Rejection> {
    match ReadHead([], chunks, ending)
    case Err(rejection) => Err(rejection)
    case Ok((bytes, rest, at)) =>
      match RequestEnd(bytes[..at], parse)
      case Err(rejection) => Err(rejection)
      case Ok((fields, length)) =>
        match ReadBody(bytes, rest, at + 4 + length, ending)
        case Err(rejection) => Err(rejection)
        case Ok(read) => Ok(Request(fields, read[at + 4..]))
  }

  method ReadRequest<F>(chunks: seq<seq<Byte>>, ending: Ending, parse: Parser<F>)
    returns (r: Result<Request<F>, Rejection>)
    ensures r == Reading(chunks, ending, parse)
  {
    hide Find;
    var bytes: seq<Byte> := [];
    var next := 0;
    var headerEnd := 0;
    while true
      invariant next <= |chunks|
      invariant ReadHead([], chunks, ending) == ReadHead(bytes, chunks[next..], ending)
      decreases |chunks| - next
    {
      var at := Find(bytes);
      if at.Some? {
        headerEnd := at.value + 4;
        if headerEnd > MAX_HEADER_BYTES {
          return Err(HeadersTooLarge);
        }
        break;
      }
      if |bytes| >= MAX_HEADER_BYTES {
        return Err(HeadersTooLarge);
      }
      if next == |chunks| {
        return Err(Stopped(ending, false));
      }
      bytes := bytes + chunks[next];
      next := next + 1;
    }
    var head := parse(bytes[..headerEnd - 4]);
    if head.Err? {
      return Err(head.error);
    }
    if head.value.contentLength > head.value.maxBody {
      return Err(BodyTooLarge);
    }
    var requestEnd := headerEnd + head.value.contentLength;
    if requestEnd > MAX_REQUEST_BYTES {
      return Err(BodyTooLarge);
    }
    ghost var start, rest := bytes, chunks[next..];
    while |bytes| < requestEnd
      invariant next <= |chunks|
      invariant ReadBody(start, rest, requestEnd, ending) == ReadBody(bytes, chunks[next..], requestEnd, ending)
      decreases |chunks| - next
    {
      if next == |chunks| {
        return Err(Stopped(ending, true));
      }
      bytes := bytes + chunks[next];
      next := next + 1;
      if |bytes| > MAX_REQUEST_BYTES {
        return Err(BodyTooLarge);
      }
    }
    r := Ok(Request(head.value.fields, bytes[headerEnd..requestEnd]));
  }

  // ---- The pieces do not matter ----

  lemma {:induction false} ReadHeadOfStream(bytes: seq<Byte>, rest: seq<seq<Byte>>, ending: Ending)
    ensures var stream := bytes + Concat(rest);
            var at := Find(stream);
            var r := ReadHead(bytes, rest, ending);
            && (at.None? ==> r == Err(if |stream| >= MAX_HEADER_BYTES then HeadersTooLarge else Stopped(ending, false)))
            && (at.Some? && at.value + 4 > MAX_HEADER_BYTES ==> r == Err(HeadersTooLarge))
            && (at.Some? && at.value + 4 <= MAX_HEADER_BYTES ==>
                  r.Ok? && r.value.0 + Concat(r.value.1) == stream && r.value.2 == at.value)
    decreases |rest|
  {
    hide Find;
    var stream := bytes + Concat(rest);
    FindInPrefix(bytes, stream);
    FindFits(stream);
    if rest == [] {
      assert stream == bytes;
    } else {
      assert bytes + rest[0] + Concat(rest[1..]) == stream;
      ReadHeadOfStream(bytes + rest[0], rest[1..], ending);
    }
  }

  lemma FindFits(s: seq<Byte>)
    ensures Find(s).Some? ==> Find(s).value + 4 <= |s|
  {
  }

  /** No read takes more than the buffer holds, and an empty read ends the stream. */
  predicate Reads(chunks: seq<seq<Byte>>) {
    forall i :: 0 <= i < |chunks| ==> 0 < |chunks[i]| <= READ_BYTES
  }

  lemma {:induction false} ReadBodyOfStream(bytes: seq<Byte>, rest: seq<seq<Byte>>, end: nat, ending: Ending)
    requires |bytes + Concat(rest)| <= MAX_REQUEST_BYTES || (Reads(rest) && end + READ_BYTES - 1 <= MAX_REQUEST_BYTES)
    ensures var stream := bytes + Concat(rest);
            ReadBody(bytes, rest, end, ending) ==
              if |stream| < end then Err(Stopped(ending, true)) else Ok(stream[..end])
    decreases |rest|
  {
    var stream := bytes + Concat(rest);
    if |bytes| >= end {
      assert stream[..end] == bytes[..end];
    } else if rest == [] {
      assert stream == bytes;
    } else {
      assert bytes + rest[0] + Concat(rest[1..]) == stream;
      ReadBodyOfStream(bytes + rest[0], rest[1..], end, ending);
    }
  }

  /** Where the body of an accepted head ends. */
  function EndOf<F>(stream: seq<Byte>, parse: Parser<F>): Option<nat> {
    var at := Find(stream);
    if at.None? || at.value + 4 > MAX_HEADER_BYTES then None
    else
      match RequestEnd(stream[..at.value], parse)
      case Err(_) => None
      case Ok((_, length)) => Some(at.value + 4 + length)
  }

  /** The stream, or else the request with room for one read more, fits the limit. */
  predicate Roomy<F>(stream: seq<Byte>, parse: Parser<F>) {
    var end := EndOf(stream, parse);
    |stream| <= MAX_REQUEST_BYTES || end.None? || end.value + READ_BYTES - 1 <= MAX_REQUEST_BYTES
  }

  lemma ReadingOfStream<F>(chunks: seq<seq<Byte>>, ending: Ending, parse: Parser<F>)
    requires |Concat(chunks)| <= MAX_REQUEST_BYTES || (Reads(chunks) && Roomy(Concat(chunks), parse))
    ensures Reading(chunks, ending, parse) == Meaning(Concat(chunks), ending, parse)
  {
    hide Find, RequestEnd, Concat, ReadHead, ReadBody, Reads;
    var stream := Concat(chunks);
    assert [] + stream == stream;
    FindFits(stream);
    ReadHeadOfStream([], chunks, ending);
    var head := ReadHead([], chunks, ending);
    if head.Ok? {
      var (bytes, rest, at) := head.value;
      assert bytes[..at] == stream[..at];
      ReadHeadKeepsReads([], chunks, ending);
      var end := RequestEnd(stream[..at], parse);
      if end.Ok? {
        ReadBodyOfStream(bytes, rest, at + 4 + end.value.1, ending);
      }
    }
  }

  lemma {:induction false} ReadHeadKeepsReads(bytes: seq<Byte>, rest: seq<seq<Byte>>, ending: Ending)
    ensures var r := ReadHead(bytes, rest, ending);
            r.Ok? && Reads(rest) ==> Reads(r.value.1)
    decreases |rest|
  {
    hide Find;
    if rest != [] {
      ReadHeadKeepsReads(bytes + rest[0], rest[1..], ending);
    }
  }

  // ---- And beyond the limit they do ----

  function Singles(s: seq<Byte>): (chunks: seq<seq<Byte>>)
    ensures |chunks| == |s| && forall i :: 0 <= i < |s| ==> chunks[i] == [s[i]]
  {
    seq(|s|, i requires 0 <= i < |s| => [s[i]])
  }

  lemma {:induction false} ConcatSingles(s: seq<Byte>, rest: seq<seq<Byte>>)
    ensures Concat(Singles(s) + rest) == s + Concat(rest)
  {
    if s == [] {
      assert Singles(s) + rest == rest;
    } else {
      hide Singles;
      ConcatSingles(s[1..], rest);
      FirstSingle(s, rest);
      assert s[0] == s[0] && [s[0]] + (s[1..] + Concat(rest)) == s + Concat(rest);
    }
  }

  /** Byte by byte, the reader stops right behind the terminator. */
  lemma {:induction false} ReadHeadBySingles(bytes: seq<Byte>, more: seq<Byte>, rest: seq<seq<Byte>>, at: nat,
                                             ending: Ending)
    requires Find(bytes + more) == Some(at) && |bytes| <= at + 4 <= MAX_HEADER_BYTES
    ensures at + 4 - |bytes| <= |more|
    ensures ReadHead(bytes, Singles(more) + rest, ending) ==
            Ok(((bytes + more)[..at + 4], Singles(more[at + 4 - |bytes|..]) + rest, at))
    decreases |more|
  {
    hide Find, Singles, ReadHead;
    var all := bytes + more;
    FindFits(all);
    FindInPrefix(bytes, all);
    var chunks := Singles(more) + rest;
    if |bytes| == at + 4 {
      assert all[..at + 4] == bytes && more[0..] == more;
      HeadFound(bytes, chunks, at, ending);
    } else {
      assert bytes + [more[0]] + more[1..] == all;
      ReadHeadBySingles(bytes + [more[0]], more[1..], rest, at, ending);
      FirstSingle(more, rest);
      HeadContinues(bytes, chunks, ending);
      assert more[1..][at + 4 - (|bytes| + 1)..] == more[at + 4 - |bytes|..];
    }
  }

  lemma HeadFound(bytes: seq<Byte>, rest: seq<seq<Byte>>, at: nat, ending: Ending)
    requires Find(bytes) == Some(at) && at + 4 <= MAX_HEADER_BYTES
    ensures at + 4 <= |bytes| && ReadHead(bytes, rest, ending) == Ok((bytes, rest, at))
  {
    hide Find;
    FindFits(bytes);
  }

  lemma HeadContinues(bytes: seq<Byte>, rest: seq<seq<Byte>>, ending: Ending)
    requires Find(bytes) == None && |bytes| < MAX_HEADER_BYTES && rest != []
    ensures ReadHead(bytes, rest, ending) == ReadHead(bytes + rest[0], rest[1..], ending)
  {
    hide Find;
  }

  lemma FirstSingle(more: seq<Byte>, rest: seq<seq<Byte>>)
    requires more != []
    ensures var chunks := Singles(more) + rest;
            |chunks| > 0 && chunks[0] == [more[0]] && chunks[1..] == Singles(more[1..]) + rest
  {
  }

  /** One read that starts inside the body and ends beyond the limit is refused. */
  lemma {:induction false} ReadBodyOvershoots(bytes: seq<Byte>, more: seq<Byte>, big: seq<Byte>, rest: seq<seq<Byte>>,
                                              end: nat, ending: Ending)
    requires |bytes| + |more| < end && |bytes| + |more| + |big| > MAX_REQUEST_BYTES && end <= MAX_REQUEST_BYTES
    ensures ReadBody(bytes, Singles(more) + ([big] + rest), end, ending) == Err(BodyTooLarge)
    decreases |more|
  {
    var chunks := Singles(more) + ([big] + rest);
    if more == [] {
      assert chunks[0] == big;
    } else {
      ReadBodyOvershoots(bytes + [more[0]], more[1..], big, rest, end, ending);
      assert chunks[0] == [more[0]] && chunks[1..] == Singles(more[1..]) + ([big] + rest);
    }
  }

  /** A stream too long and a request that ends too close to the limit: delivered so that
      one read crosses the limit, the request is refused although it is complete. */
  lemma OvershootRefused<F>(stream: seq<Byte>, ending: Ending, parse: Parser<F>) returns (chunks: seq<seq<Byte>>)
    requires !Roomy(stream, parse)
    ensures Concat(chunks) == stream && Reads(chunks)
    ensures Reading(chunks, ending, parse) == Err(BodyTooLarge) && Meaning(stream, ending, parse).Ok?
  {
    hide Find, RequestEnd, EndOf, Roomy, Singles, Concat, Reading, Meaning, Reads;
    EndFits(stream, parse);
    var end := EndOf(stream, parse).value;
    chunks := Crossing(stream, end);
    CrossingReads(stream, end);
    CrossingRefused(stream, ending, parse);
  }

  /** Single bytes up to the last one of the request, then one read across the limit. */
  function Crossing(stream: seq<Byte>, end: nat): seq<seq<Byte>>
    requires 0 < end <= MAX_REQUEST_BYTES < |stream|
  {
    Singles(stream[..end - 1]) + ([stream[end - 1..MAX_REQUEST_BYTES + 1]] + Singles(stream[MAX_REQUEST_BYTES + 1..]))
  }

  lemma CrossingReads(stream: seq<Byte>, end: nat)
    requires 0 < end <= MAX_REQUEST_BYTES < |stream| && end + READ_BYTES - 1 > MAX_REQUEST_BYTES
    ensures Concat(Crossing(stream, end)) == stream && Reads(Crossing(stream, end))
  {
    var small, big, tail := stream[..end - 1], stream[end - 1..MAX_REQUEST_BYTES + 1], stream[MAX_REQUEST_BYTES + 1..];
    var rest := [big] + Singles(tail);
    assert Singles(tail) + [] == Singles(tail);
    ConcatSingles(tail, []);
    assert rest[1..] == Singles(tail);
    ConcatSingles(small, rest);
    assert stream == small + (big + tail);
  }

  lemma CrossingRefused<F>(stream: seq<Byte>, ending: Ending, parse: Parser<F>)
    requires !Roomy(stream, parse) && EndOf(stream, parse).Some? &&
             0 < EndOf(stream, parse).value <= MAX_REQUEST_BYTES < |stream|
    ensures Reading(Crossing(stream, EndOf(stream, parse).value), ending, parse) == Err(BodyTooLarge)
    ensures Meaning(stream, ending, parse).Ok?
  {
    hide Find, RequestEnd, EndOf, Roomy, Singles, ReadHead, ReadBody;
    EndFits(stream, parse);
    var at, end := Find(stream).value, EndOf(stream, parse).value;
    var small, big, tail := stream[..end - 1], stream[end - 1..MAX_REQUEST_BYTES + 1], stream[MAX_REQUEST_BYTES + 1..];
    var rest := [big] + Singles(tail);
    FindInPrefix(small, stream);
    assert [] + small == small;
    ReadHeadBySingles([], small, rest, at, ending);
    var bytes, more := small[..at + 4], small[at + 4..];
    assert bytes[..at] == stream[..at];
    ReadBodyOvershoots(bytes, more, big, Singles(tail), end, ending);
  }

  lemma EndFits<F>(stream: seq<Byte>, parse: Parser<F>)
    requires !Roomy(stream, parse)
    ensures var at, end := Find(stream), EndOf(stream, parse);
            && at.Some? && end.Some? && at.value + 4 <= MAX_HEADER_BYTES && end.value <= MAX_REQUEST_BYTES < |stream|
            && at.value + 4 < end.value && end.value + READ_BYTES - 1 > MAX_REQUEST_BYTES
            && RequestEnd(stream[..at.value], parse).Ok?
            && end.value == at.value + 4 + RequestEnd(stream[..at.value], parse).value.1
  {
    hide Find;
  }

  /** A stream of at most 16 MiB is read the same however it is delivered; a longer one is
      exactly when its request is refused by its head or leaves room for one read more. */
  lemma ReadingIndependentIffRoomy<F>(stream: seq<Byte>, ending: Ending, parse: Parser<F>)
    ensures Roomy(stream, parse) <==>
            forall chunks :: Concat(chunks) == stream && Reads(chunks) ==>
              Reading(chunks, ending, parse) == Meaning(stream, ending, parse)
  {
    hide Roomy, Reading, Meaning, Concat, Reads;
    if Roomy(stream, parse) {
      forall chunks | Concat(chunks) == stream && Reads(chunks)
        ensures Reading(chunks, ending, parse) == Meaning(stream, ending, parse)
      {
        ReadingOfStream(chunks, ending, parse);
      }
    } else {
      var chunks := OvershootRefused(stream, ending, parse);
    }
  }
}
