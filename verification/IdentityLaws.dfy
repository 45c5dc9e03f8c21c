/** Identities in plain terms: when the tags of a chunk agree, which chunks pass a tag on,
    and what both programs accept. */
module IdentityLaws {
  import opened Basics
  import opened Wrappers
  import opened Spans
  import opened NativeIdentity
  import opened NativeIndex
  import opened StressIdentity

  // ---- Letter case ----

  /** The same letter, or the upper-case and the lower-case form of one ASCII letter. */
  predicate SameLetter(a: char, b: char) {
    a == b || (65 <= a as int <= 90 && b as int == a as int + 32) || (65 <= b as int <= 90 && a as int == b as int + 32)
  }

  predicate SameLetters(a: string, b: string) {
    |a| == |b| && forall i :: 0 <= i < |a| ==> SameLetter(a[i], b[i])
  }

  /** The text with its ASCII capitals replaced, character by character. */
  predicate LowerForm(low: string, s: string) {
    |low| == |s| && forall i :: 0 <= i < |s| ==> low[i] as int == LetterCode(s[i])
  }

  function LetterCode(c: char): int {
    if 65 <= c as int <= 90 then c as int + 32 else c as int
  }

  lemma LowerCharIs(c: char)
    ensures LowerChar(c) as int == LetterCode(c)
  {
  }

  lemma LowerIff(s: string, low: string)
    ensures low == Lower(s) <==> LowerForm(low, s)
  {
    hide LowerChar, LetterCode;
    forall c: char
      ensures LowerChar(c) as int == LetterCode(c)
    {
      LowerCharIs(c);
    }
    if LowerForm(low, s) {
      forall i | 0 <= i < |s|
        ensures low[i] == Lower(s)[i]
      {
      }
    }
  }

  lemma SameCharIff(a: char, b: char)
    ensures LowerChar(a) == LowerChar(b) <==> SameLetter(a, b)
  {
  }

  /** Two texts have the same lower-case form exactly when they agree character by character
      up to the case of ASCII letters. */
  lemma SameLowerIff(a: string, b: string)
    ensures Lower(a) == Lower(b) <==> SameLetters(a, b)
  {
    hide LowerChar, SameLetter;
    forall c, d
      ensures LowerChar(c) == LowerChar(d) <==> SameLetter(c, d)
    {
      SameCharIff(c, d);
    }
    if Lower(a) == Lower(b) {
      forall i | 0 <= i < |a|
        ensures SameLetter(a[i], b[i])
      {
        assert Lower(a)[i] == Lower(b)[i];
      }
    }
    if SameLetters(a, b) {
      forall i | 0 <= i < |a|
        ensures Lower(a)[i] == Lower(b)[i]
      {
      }
    }
  }

  // ---- The tag of a chunk ----

  /** All tagged spans write the same tag, and it is kept in lower case. */
  ghost predicate KeepsTag(spans: seq<Span>, high: Option<Tag>) {
    match high
    case None => forall k :: 0 <= k < |spans| ==> spans[k].tid.None?
    case Some(tag) =>
      && (exists k :: 0 <= k < |spans| && spans[k].tid.Some?)
      && forall k :: 0 <= k < |spans| && spans[k].tid.Some? ==> LowerForm(tag, spans[k].tid.value)
  }

  lemma DeclaresIff(spans: seq<Span>, high: Option<Tag>)
    ensures DeclaresTag(spans, high) <==> KeepsTag(spans, high)
  {
    hide Lower, LowerForm;
    forall s, low
      ensures low == Lower(s) <==> LowerForm(low, s)
    {
      LowerIff(s, low);
    }
    forall k | 0 <= k < |spans| && spans[k].tid.Some?
      ensures Lower(spans[k].tid.value) in ChunkTags(spans)
    {
      assert spans[k] in spans;
    }
    if KeepsTag(spans, high) {
      forall t
        ensures t in ChunkTags(spans) <==> high == Some(t)
      {
      }
    }
  }

  /** A chunk has a tag to keep, or none, exactly when its tags agree up to letter case. */
  lemma AgreeingTags(spans: seq<Span>)
    ensures (exists high :: DeclaresTag(spans, high)) <==>
            forall k, l :: 0 <= k < |spans| && 0 <= l < |spans| && spans[k].tid.Some? && spans[l].tid.Some? ==>
              SameLetters(spans[k].tid.value, spans[l].tid.value)
  {
    hide Lower, SameLetters, LowerForm, DeclaresTag;
    forall k, l | 0 <= k < |spans| && 0 <= l < |spans| && spans[k].tid.Some? && spans[l].tid.Some?
      ensures SameLetters(spans[k].tid.value, spans[l].tid.value) <==>
              Lower(spans[k].tid.value) == Lower(spans[l].tid.value)
    {
      SameLowerIff(spans[k].tid.value, spans[l].tid.value);
    }
    forall s, low
      ensures low == Lower(s) <==> LowerForm(low, s)
    {
      LowerIff(s, low);
    }
    forall high
      ensures DeclaresTag(spans, high) <==> KeepsTag(spans, high)
    {
      DeclaresIff(spans, high);
    }
    if k :| 0 <= k < |spans| && spans[k].tid.Some? {
      if forall l :: 0 <= l < |spans| && spans[l].tid.Some? ==>
        SameLetters(spans[k].tid.value, spans[l].tid.value)
      {
        assert KeepsTag(spans, Some(Lower(spans[k].tid.value)));
      }
    } else {
      assert KeepsTag(spans, None);
    }
  }

  lemma StressDeclaresIff(spans: seq<Span>, high: Option<Tag>)
    ensures StressDeclares(spans, high) <==> KeepsTag(WithoutEmpty(spans), high)
  {
    var kept := WithoutEmpty(spans);
    DeclaresIff(kept, high);
    assert ChunkTags(kept) == StressTags(spans) by {
      forall t
        ensures t in ChunkTags(kept) <==> t in StressTags(spans)
      {
        if t in StressTags(spans) {
          var k :| 0 <= k < |spans| && HasTag(spans[k]) && Lower(spans[k].tid.value) == t;
          assert kept[k] in kept;
        }
      }
    }
  }

  /** The stress checker takes an empty tag for none. */
  function WithoutEmpty(spans: seq<Span>): seq<Span> {
    seq(|spans|, k requires 0 <= k < |spans| =>
      if spans[k].tid == Some("") then spans[k].(tid := None) else spans[k])
  }

  // ---- Chunks ----

  predicate HexTag(tid: string) {
    |tid| == 16 &&
    forall i :: 0 <= i < 16 ==>
      (48 <= tid[i] as int <= 57 || 65 <= tid[i] as int <= 70 || 97 <= tid[i] as int <= 102)
  }

  predicate Positive(s: Span) {
    s.traceId > 0 && s.spanId > 0 && s.start > 0 && s.duration > 0
  }

  predicate OneTrace(spans: seq<Span>) {
    forall k, l :: 0 <= k < |spans| && 0 <= l < |spans| ==> spans[k].traceId == spans[l].traceId
  }

  predicate ParentAndChild(a: Span, b: Span) {
    a.parentId == b.spanId || b.parentId == a.spanId
  }

  ghost predicate Adjoin(xs: seq<Span>, ys: seq<Span>) {
    exists k, l :: 0 <= k < |xs| && 0 <= l < |ys| && xs[k].traceId == ys[l].traceId && ParentAndChild(xs[k], ys[l])
  }

  ghost predicate Share(xs: seq<Span>, ys: seq<Span>) {
    exists k, l :: 0 <= k < |xs| && 0 <= l < |ys| && xs[k].traceId == ys[l].traceId && xs[k].spanId == ys[l].spanId
  }

  lemma ValidTidIff(tid: string)
    ensures ValidTid(tid) <==> HexTag(tid)
  {
  }

  lemma {:induction false} LinkedIff(cs: seq<Chunk>, i: nat, j: nat)
    requires i < |cs| && j < |cs| && Uniform(cs)
    ensures Linked(cs, i, j) <==> Adjoin(cs[i].spans, cs[j].spans)
    ensures cs[i].low == cs[j].low && SpansShared(cs[i].spans, cs[j].spans) <==> Share(cs[i].spans, cs[j].spans)
  {
    var xs, ys := cs[i].spans, cs[j].spans;
    if Linked(cs, i, j) {
      var a, b :| a in xs && b in ys && (a.parentId == b.spanId || b.parentId == a.spanId);
      var k :| 0 <= k < |xs| && xs[k] == a;
      var l :| 0 <= l < |ys| && ys[l] == b;
      assert ParentAndChild(xs[k], ys[l]);
    }
    if cs[i].low == cs[j].low && SpansShared(xs, ys) {
      var a, b :| a in xs && b in ys && a.spanId == b.spanId;
      var k :| 0 <= k < |xs| && xs[k] == a;
      var l :| 0 <= l < |ys| && ys[l] == b;
    }
  }

  /** A way from an untagged chunk, over untagged chunks that adjoin, to one that keeps the
      tag. */
  ghost predicate Passes(input: seq<seq<Span>>, highs: seq<Option<Tag>>, p: seq<nat>, t: Tag)
    requires |highs| == |input|
  {
    && |p| >= 2
    && (forall k :: 0 <= k < |p| ==> p[k] < |input|)
    && (forall k :: 0 <= k < |p| - 1 ==> highs[p[k]].None? && Adjoin(input[p[k]], input[p[k + 1]]))
    && highs[p[|p| - 1]] == Some(t)
  }

  ghost predicate Receives(input: seq<seq<Span>>, highs: seq<Option<Tag>>, i: nat, t: Tag)
    requires |highs| == |input|
  {
    exists p :: Passes(input, highs, p, t) && p[0] == i
  }

  /** The tag that completes the trace IDs of a chunk: its own, the one it receives, or
      sixteen zeros. */
  ghost predicate FullTag(input: seq<seq<Span>>, highs: seq<Option<Tag>>, i: nat, t: Tag)
    requires |highs| == |input| && i < |input|
  {
    if highs[i].Some? then t == highs[i].value
    else if exists u :: Receives(input, highs, i, u) then Receives(input, highs, i, t)
    else t == "0000000000000000"
  }

  predicate SameIdentity(input: seq<seq<Span>>, tags: seq<Tag>, i: nat, k: nat, j: nat, l: nat)
    requires |tags| == |input|
  {
    && i < |input| && k < |input[i]| && j < |input| && l < |input[j]|
    && input[i][k].traceId == input[j][l].traceId && tags[i] == tags[j]
    && input[i][k].spanId == input[j][l].spanId
  }

  /** No two spans share trace ID, tag and span ID. */
  ghost predicate Apart(input: seq<seq<Span>>, tags: seq<Tag>)
    requires |tags| == |input|
  {
    forall i: nat, k: nat, j: nat, l: nat :: SameIdentity(input, tags, i, k, j, l) ==> i == j && k == l
  }

  ghost predicate NativeChunk(spans: seq<Span>, high: Option<Tag>) {
    && spans != [] && OneTrace(spans)
    && (forall k :: 0 <= k < |spans| ==>
          Positive(spans[k]) && spans[k].otherFieldsValid && (spans[k].tid.Some? ==> HexTag(spans[k].tid.value)))
    && KeepsTag(spans, high)
  }

  /** What the sink accepts, with the tags of the chunks before and after they are passed
      on. */
  ghost predicate NativeHolds(input: seq<seq<Span>>, highs: seq<Option<Tag>>, tags: seq<Tag>) {
    && |highs| == |tags| == |input|
    && (forall i :: 0 <= i < |input| ==> NativeChunk(input[i], highs[i]))
    && (forall i, s, t :: Receives(input, highs, i, s) && Receives(input, highs, i, t) ==> s == t)
    && (forall i :: 0 <= i < |input| ==> FullTag(input, highs, i, tags[i]))
    && Apart(input, tags)
  }

  ghost predicate SameChunks(input: seq<seq<Span>>, highs: seq<Option<Tag>>, cs: seq<Chunk>) {
    && |cs| == |input| == |highs| && Uniform(cs)
    && forall i :: 0 <= i < |cs| ==> cs[i].spans == input[i] && cs[i].high == highs[i]
  }

  lemma PassesIff(input: seq<seq<Span>>, highs: seq<Option<Tag>>, cs: seq<Chunk>, p: seq<nat>, t: Tag)
    requires SameChunks(input, highs, cs)
    ensures TouchPath(cs, p, t) <==> Passes(input, highs, p, t)
  {
    hide Linked, Adjoin;
    forall i: nat, j: nat | i < |cs| && j < |cs|
      ensures Linked(cs, i, j) <==> Adjoin(input[i], input[j])
    {
      LinkedIff(cs, i, j);
    }
  }

  lemma ReceivesIff(input: seq<seq<Span>>, highs: seq<Option<Tag>>, cs: seq<Chunk>)
    requires SameChunks(input, highs, cs)
    ensures forall i, t :: Touches(cs, i, t) <==> Receives(input, highs, i, t)
  {
    hide TouchPath, Passes;
    forall p, t
      ensures TouchPath(cs, p, t) <==> Passes(input, highs, p, t)
    {
      PassesIff(input, highs, cs, p, t);
    }
    forall i, t
      ensures Touches(cs, i, t) <==> Receives(input, highs, i, t)
    {
      PathNotEmpty(input, highs, cs, t);
    }
  }

  lemma PathNotEmpty(input: seq<seq<Span>>, highs: seq<Option<Tag>>, cs: seq<Chunk>, t: Tag)
    requires |highs| == |input|
    ensures forall p :: TouchPath(cs, p, t) || Passes(input, highs, p, t) ==> |p| >= 2
  {
  }

  /** After the tags were passed on. */
  lemma FullTagIff(input: seq<seq<Span>>, highs: seq<Option<Tag>>, cs: seq<Chunk>, i: nat)
    requires SameChunks(input, highs, cs) && Unambiguous(cs) && i < |cs|
    ensures forall t :: FullTag(input, highs, i, t) <==> HighOrZero(Resolve(cs)[i].high) == t
  {
    hide Touches, Receives;
    ReceivesIff(input, highs, cs);
  }

  lemma ApartIff(input: seq<seq<Span>>, tags: seq<Tag>, cs: seq<Chunk>)
    requires |cs| == |tags| == |input| && Uniform(cs)
    requires forall i :: 0 <= i < |cs| ==> cs[i].spans == input[i] && HighOrZero(cs[i].high) == tags[i]
    ensures DistinctIdentities(cs) <==> Apart(input, tags)
  {
    hide HighOrZero;
    if DistinctIdentities(cs) {
      forall i: nat, k: nat, j: nat, l: nat | SameIdentity(input, tags, i, k, j, l)
        ensures i == j && k == l
      {
        assert At(cs, i, k, IdentityOf(cs[i], k)) && At(cs, j, l, IdentityOf(cs[j], l));
        assert IdentityOf(cs[i], k) == IdentityOf(cs[j], l);
      }
    }
    if Apart(input, tags) {
      forall id, i: nat, k: nat, j: nat, l: nat | At(cs, i, k, id) && At(cs, j, l, id)
        ensures i == j && k == l
      {
        assert input[i][k].traceId == cs[i].low && input[j][l].traceId == cs[j].low;
        assert SameIdentity(input, tags, i, k, j, l);
      }
    }
  }

  lemma NativeChunkIff(spans: seq<Span>, high: Option<Tag>)
    ensures NativeChunk(spans, high) <==> ValidChunk(spans) && DeclaresTag(spans, high)
  {
    hide ValidTid, HexTag, KeepsTag, DeclaresTag;
    DeclaresIff(spans, high);
    forall tid
      ensures ValidTid(tid) <==> HexTag(tid)
    {
      ValidTidIff(tid);
    }
  }

  /** The sink's verdict, with every condition spelled out. */
  lemma NativeIff(input: seq<seq<Span>>)
    ensures Accepts(input) <==> exists highs, tags :: NativeHolds(input, highs, tags)
  {
    hide Accepts, NativeHolds;
    if Accepts(input) {
      var highs, tags := NativeTags(input);
    }
    if highs, tags :| NativeHolds(input, highs, tags) {
      NativeAccepted(input, highs, tags);
    }
  }

  lemma NativeTags(input: seq<seq<Span>>) returns (highs: seq<Option<Tag>>, tags: seq<Tag>)
    requires Accepts(input)
    ensures NativeHolds(input, highs, tags)
  {
    hide FullTag, Receives, ValidChunk, NativeChunk, DeclaresTag, Apart, Unambiguous, HighOrZero, DistinctIdentities;
    var cs := Declared(input);
    highs := seq(|cs|, i requires 0 <= i < |cs| => cs[i].high);
    tags := seq(|cs|, i requires 0 <= i < |cs| => HighOrZero(Resolve(cs)[i].high));
    DeclaredIsUniform(input, highs);
    forall i | 0 <= i < |input|
      ensures NativeChunk(input[i], highs[i]) && FullTag(input, highs, i, tags[i])
    {
      NativeChunkIff(input[i], highs[i]);
      FullTagIff(input, highs, cs, i);
    }
    UnambiguousIff(input, highs, cs);
    ApartIff(input, tags, Resolve(cs));
  }

  lemma UnambiguousIff(input: seq<seq<Span>>, highs: seq<Option<Tag>>, cs: seq<Chunk>)
    requires SameChunks(input, highs, cs)
    ensures Unambiguous(cs) <==>
            forall i, s, t :: Receives(input, highs, i, s) && Receives(input, highs, i, t) ==> s == t
  {
    hide Touches, Receives;
    ReceivesIff(input, highs, cs);
  }

  lemma DeclaredIsUniform(input: seq<seq<Span>>, highs: seq<Option<Tag>>)
    requires WellFormed(input) && |highs| == |input|
    requires forall i :: 0 <= i < |input| ==> highs[i] == Declared(input)[i].high
    ensures SameChunks(input, highs, Declared(input)) && Uniform(Resolve(Declared(input)))
  {
    hide DeclaresTag, ResolvedHigh, ValidSpan;
    var cs := Declared(input);
    forall i, k | 0 <= i < |cs| && 0 <= k < |cs[i].spans|
      ensures cs[i].spans[k].traceId == cs[i].low
    {
      assert SameTrace(input[i]);
    }
  }

  lemma NativeAccepted(input: seq<seq<Span>>, highs: seq<Option<Tag>>, tags: seq<Tag>)
    requires NativeHolds(input, highs, tags)
    ensures Accepts(input) && SameChunks(input, highs, Declared(input))
    ensures forall i :: 0 <= i < |input| ==> HighOrZero(Resolve(Declared(input))[i].high) == tags[i]
  {
    hide FullTag, Receives, ValidChunk, NativeChunk, DeclaresTag, Apart, Unambiguous, HighOrZero, DistinctIdentities,
         ResolvedHigh;
    forall i | 0 <= i < |input|
      ensures ValidChunk(input[i]) && DeclaresTag(input[i], highs[i])
    {
      NativeChunkIff(input[i], highs[i]);
    }
    var cs := Declared(input);
    forall i | 0 <= i < |input|
      ensures cs[i].high == highs[i]
    {
      DeclaredTagUnique(input[i], highs[i], cs[i].high);
    }
    DeclaredIsUniform(input, highs);
    UnambiguousIff(input, highs, cs);
    forall i | 0 <= i < |input|
      ensures HighOrZero(Resolve(cs)[i].high) == tags[i]
    {
      FullTagIff(input, highs, cs, i);
    }
    ApartIff(input, tags, Resolve(cs));
  }

  /** The accepted index lists the traces by trace ID and full tag, and files every span
      under the tag of its chunk. */
  lemma IndexKeys(input: seq<seq<Span>>, highs: seq<Option<Tag>>, tags: seq<Tag>, traces: Traces)
    requires Accepts(input) && NativeHolds(input, highs, tags) && IsIndexOf(Resolve(Declared(input)), traces)
    ensures forall key :: key in traces <==>
              exists i :: 0 <= i < |input| && key == TraceKey(input[i][0].traceId, tags[i])
    ensures forall i, k :: 0 <= i < |input| && 0 <= k < |input[i]| ==>
              TraceKey(input[i][0].traceId, tags[i]) in traces &&
              input[i][k] in traces[TraceKey(input[i][0].traceId, tags[i])].spans
  {
    hide FullTag, Receives, Apart, Unambiguous, DistinctIdentities, Indexed, HighOrZero, ResolvedHigh, TraceSpans,
         NativeChunk;
    NativeAccepted(input, highs, tags);
    var cs := Resolve(Declared(input));
    ChunksAreTraced(input, highs, tags);
    forall key | key in traces
      ensures exists i :: 0 <= i < |input| && key == TraceKey(input[i][0].traceId, tags[i])
    {
      var i, k := Origin(cs, key, 0);
      assert KeyOf(cs[i]) == TraceKey(input[i][0].traceId, tags[i]);
    }
    forall i: nat, k: nat | i < |input| && k < |input[i]|
      ensures TraceKey(input[i][0].traceId, tags[i]) in traces
      ensures input[i][k] in traces[TraceKey(input[i][0].traceId, tags[i])].spans
    {
      var p := Place(cs, i, k);
    }
  }

  lemma ChunksAreTraced(input: seq<seq<Span>>, highs: seq<Option<Tag>>, tags: seq<Tag>)
    requires NativeHolds(input, highs, tags)
    ensures Accepts(input)
    ensures |highs| == |tags| == |input| == |Resolve(Declared(input))|
    ensures forall i :: 0 <= i < |input| ==>
              input[i] != [] && Resolve(Declared(input))[i].spans == input[i] &&
              KeyOf(Resolve(Declared(input))[i]) == TraceKey(input[i][0].traceId, tags[i])
  {
    hide FullTag, Receives, Apart, HighOrZero, ResolvedHigh;
    NativeAccepted(input, highs, tags);
  }

  // ---- The stress checker ----

  /** A way over chunks that adjoin or share a span. */
  ghost predicate Joins(input: seq<seq<Span>>, p: seq<nat>) {
    && p != []
    && (forall k :: 0 <= k < |p| ==> p[k] < |input|)
    && forall k :: 0 <= k < |p| - 1 ==> Near(input[p[k]], input[p[k + 1]])
  }

  ghost predicate Near(xs: seq<Span>, ys: seq<Span>) {
    Share(xs, ys) || Adjoin(xs, ys)
  }

  ghost predicate Meets(input: seq<seq<Span>>, highs: seq<Option<Tag>>, i: nat, t: Tag)
    requires |highs| == |input|
  {
    exists p :: Joins(input, p) && p[0] == i && highs[p[|p| - 1]] == Some(t)
  }

  ghost predicate StressTag(input: seq<seq<Span>>, highs: seq<Option<Tag>>, i: nat, t: Tag)
    requires |highs| == |input| && i < |input|
  {
    if highs[i].Some? then t == highs[i].value
    else if exists u :: Meets(input, highs, i, u) then Meets(input, highs, i, t)
    else t == "0000000000000000"
  }

  ghost predicate StressHoldsChunk(spans: seq<Span>, high: Option<Tag>) {
    && OneTrace(spans)
    && (forall k :: 0 <= k < |spans| ==>
          Positive(spans[k]) &&
          (spans[k].tid.Some? && spans[k].tid.value != "" ==> HexTag(spans[k].tid.value)))
    && KeepsTag(WithoutEmpty(spans), high)
  }

  ghost predicate OneMet(input: seq<seq<Span>>, highs: seq<Option<Tag>>, i: nat)
    requires |highs| == |input|
  {
    forall s, t :: Meets(input, highs, i, s) && Meets(input, highs, i, t) ==> s == t
  }

  /** What the stress checker accepts. */
  ghost predicate StressHolds(input: seq<seq<Span>>, highs: seq<Option<Tag>>, tags: seq<Tag>) {
    && |highs| == |tags| == |input|
    && (forall i :: 0 <= i < |input| ==> StressHoldsChunk(input[i], highs[i]))
    && (forall i: nat :: i < |input| && highs[i].None? ==> OneMet(input, highs, i))
    && (forall i :: 0 <= i < |input| ==> StressTag(input, highs, i, tags[i]))
    && Apart(input, tags)
  }

  lemma WalkIff(input: seq<seq<Span>>, highs: seq<Option<Tag>>, cs: seq<Chunk>, p: seq<nat>)
    requires SameChunks(input, highs, cs)
    ensures Walk(cs, p) <==> Joins(input, p)
  {
    hide Linked, Adjoin, Share, SpansShared, SpansLinked;
    forall i: nat, j: nat | i < |cs| && j < |cs|
      ensures Related(cs, i, j) <==> Near(input[i], input[j])
    {
      LinkedIff(cs, i, j);
      assert Linked(cs, i, j) <==> cs[i].low == cs[j].low && SpansLinked(cs[i].spans, cs[j].spans) by {
        LinkedIs(cs, i, j);
      }
    }
  }

  lemma LinkedIs(cs: seq<Chunk>, i: nat, j: nat)
    requires i < |cs| && j < |cs|
    ensures Linked(cs, i, j) <==> cs[i].low == cs[j].low && SpansLinked(cs[i].spans, cs[j].spans)
  {
  }

  lemma MeetsIff(input: seq<seq<Span>>, highs: seq<Option<Tag>>, cs: seq<Chunk>, i: nat)
    requires SameChunks(input, highs, cs)
    ensures forall t :: t in ComponentTags(cs, i) <==> Meets(input, highs, i, t)
  {
    hide Related, Near;
    forall p
      ensures Walk(cs, p) <==> Joins(input, p)
    {
      WalkIff(input, highs, cs, p);
    }
    forall t
      ensures t in ComponentTags(cs, i) <==> Meets(input, highs, i, t)
    {
      if t in ComponentTags(cs, i) {
        var j: nat :| j < |cs| && cs[j].high.Some? && Connected(cs, i, j) && cs[j].high.value == t;
        var p :| Walk(cs, p) && p[0] == i && p[|p| - 1] == j;
        assert Joins(input, p);
      }
      if Meets(input, highs, i, t) {
        var p :| Joins(input, p) && p[0] == i && highs[p[|p| - 1]] == Some(t);
        assert Walk(cs, p);
        assert Connected(cs, i, p[|p| - 1]);
      }
    }
  }

  lemma StressTagIff(input: seq<seq<Span>>, highs: seq<Option<Tag>>, cs: seq<Chunk>, i: nat)
    requires SameChunks(input, highs, cs) && i < |cs| && (cs[i].high.None? ==> OneTag(cs, i))
    ensures forall t :: StressTag(input, highs, i, t) <==> HighOrZero(StressHigh(cs, i)) == t
  {
    hide Meets, Connected;
    MeetsIff(input, highs, cs, i);
    assert ComponentTags(cs, i) == {} <==> !exists u :: Meets(input, highs, i, u);
  }

  lemma StressChunkIff(spans: seq<Span>, high: Option<Tag>)
    ensures StressHoldsChunk(spans, high) <==> StressChunk(spans) && StressDeclares(spans, high)
  {
    hide ValidTid, HexTag, KeepsTag, StressDeclares;
    StressDeclaresIff(spans, high);
    forall tid
      ensures ValidTid(tid) <==> HexTag(tid)
    {
      ValidTidIff(tid);
    }
  }

  /** The stress checker's verdict on the identities, with every condition spelled out. */
  lemma StressIff(input: seq<seq<Span>>)
    ensures StressAccepts(input) <==> exists highs, tags :: StressHolds(input, highs, tags)
  {
    hide StressAccepts, StressHolds;
    if StressAccepts(input) {
      var highs, tags := StressTagsOf(input);
    }
    if highs, tags :| StressHolds(input, highs, tags) {
      StressAccepted(input, highs, tags);
    }
  }

  lemma StressUniform(input: seq<seq<Span>>, highs: seq<Option<Tag>>)
    requires StressWellFormed(input) && |highs| == |input|
    requires forall i :: 0 <= i < |input| ==> highs[i] == StressDeclared(input)[i].high
    ensures SameChunks(input, highs, StressDeclared(input)) && Uniform(StressResolve(StressDeclared(input)))
  {
    hide StressDeclares, StressHigh, StressValidSpan;
    var cs := StressDeclared(input);
    forall i, k | 0 <= i < |cs| && 0 <= k < |cs[i].spans|
      ensures cs[i].spans[k].traceId == cs[i].low
    {
      assert StressChunk(input[i]);
    }
  }

  lemma StressUnambiguousIff(input: seq<seq<Span>>, highs: seq<Option<Tag>>, cs: seq<Chunk>)
    requires SameChunks(input, highs, cs)
    ensures StressUnambiguous(cs) <==>
            forall i: nat :: i < |input| && highs[i].None? ==> OneMet(input, highs, i)
  {
    hide Meets, ComponentTags;
    forall i: nat
      ensures OneTag(cs, i) <==> OneMet(input, highs, i)
    {
      MeetsIff(input, highs, cs, i);
    }
  }

  lemma StressTagsOf(input: seq<seq<Span>>) returns (highs: seq<Option<Tag>>, tags: seq<Tag>)
    requires StressAccepts(input)
    ensures StressHolds(input, highs, tags)
  {
    hide StressTag, Meets, StressChunk, StressHoldsChunk, StressDeclares, Apart, OneTag, HighOrZero, DistinctIdentities,
         StressHigh;
    var cs := StressDeclared(input);
    highs := seq(|cs|, i requires 0 <= i < |cs| => cs[i].high);
    tags := seq(|cs|, i requires 0 <= i < |cs| => HighOrZero(StressResolve(cs)[i].high));
    StressUniform(input, highs);
    forall i: nat | i < |input|
      ensures StressHoldsChunk(input[i], highs[i]) && StressTag(input, highs, i, tags[i])
    {
      StressChunkIff(input[i], highs[i]);
      assert cs[i].high.None? ==> OneTag(cs, i);
      StressTagIff(input, highs, cs, i);
    }
    StressUnambiguousIff(input, highs, cs);
    ApartIff(input, tags, StressResolve(cs));
  }

  lemma StressAccepted(input: seq<seq<Span>>, highs: seq<Option<Tag>>, tags: seq<Tag>)
    requires StressHolds(input, highs, tags)
    ensures StressAccepts(input)
    ensures forall i :: 0 <= i < |input| ==> HighOrZero(StressResolve(StressDeclared(input))[i].high) == tags[i]
  {
    hide StressTag, Meets, StressChunk, StressHoldsChunk, StressDeclares, Apart, OneTag, HighOrZero, DistinctIdentities,
         StressHigh;
    forall i | 0 <= i < |input|
      ensures StressChunk(input[i]) && StressDeclares(input[i], highs[i])
    {
      StressChunkIff(input[i], highs[i]);
    }
    var cs := StressDeclared(input);
    forall i | 0 <= i < |input|
      ensures cs[i].high == highs[i]
    {
      StressTagUnique(input[i], highs[i], cs[i].high);
    }
    StressUniform(input, highs);
    StressUnambiguousIff(input, highs, cs);
    forall i: nat | i < |input|
      ensures HighOrZero(StressResolve(cs)[i].high) == tags[i]
    {
      assert cs[i].high.None? ==> OneTag(cs, i);
      StressTagIff(input, highs, cs, i);
    }
    ApartIff(input, tags, StressResolve(cs));
  }
}
