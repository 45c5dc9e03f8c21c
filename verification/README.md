# Telemetry harness: a verified model

The harness records what an application under test reports about itself. A sink accepts
Datadog and OTLP uploads over HTTP, keeps them within limits, writes them to a JSON file and
answers questions about what it captured; Go checkers re-derive the same facts from the
captured file. This project models the parts of both that infer identities, shapes and
budgets, and proves what they promise.

Code that changes state step by step is modelled as methods and classes that do the same
(the decoder, the tag fixpoint, the union-find, the owner memo, the capture server, the
file, the readers and the matching loops) and is proved against functions or predicates on
their inputs. The properties below are lemmas about those.

## The parts

**Native identity.** `Spans`, `NativeIdentity`, `NativeIndex` and `Shapes` model how the sink
gives untagged chunks their upper trace-ID bits, indexes the spans of every trace and walks
each trace while counting visits. `StressIdentity` models the Go re-implementation with
union-find and path halving, and `IdentityAgreement` compares the two. The Go program is the
stricter one: it joins chunks through tagged chunks as well, and through shared span IDs. On
captures that both can be asked about, it accepts exactly what the sink accepts and what is
`Clean` besides; `BridgeSplitsTheVerdict` gives a capture that only the sink accepts.

**Stress validation.** `Ownership`, `StressValidation` and `Sweep` model the comparison of a
capture with the ledger of requests: the memoised climb from every span to its server span,
the matching of servers and SQL counts, and the overlap of server spans. `StressCheck` puts
identity inference and comparison together, from a list of chunks to the verdict. The depth guard of
the climb counts the spans being visited, and the memo shortens climbs, so the verdict can
depend on the order in which Go visits a map; it does exactly for captures whose spans are all
owned, some of them by a chain of more than 65 spans.

**Native decoding.** `MessagePack`, `BinaryProvenance`, `DecoderBudget`, `MessagePackDecoder`
and `MessagePackRoundTrip` model the budgeted recursive decoder. An `Item` is what stands on
the wire, widths included; `Meaning` is what the decoder makes of it. The decoder accepts a
payload exactly when it is one item that fits every budget, and no payload is two items.
Binary data is read as an array of its bytes, and these bytes lie one level below the binary
item, so a decoded value can be 33 levels deep although the depth guard stops at 32.
`MessagePackDepth` proves that this happens exactly when binary data lies 32 levels below the
root, and gives an accepted payload. `DictionaryTraces` models the expansion of the v0.5
layout, and `DatadogPayload` the way from the bytes of either layout to the traces.

**Trace forests.** `Ordering`, `ParentChains` and `TraceForest` model the grouped forest built
from OTLP spans. Fingerprints are parameters there. `ForestSizes` and `ForestRenaming` prove
that the forest keeps the number of spans wherever equal fingerprints of siblings, and of
traces, stand for equally many spans, and that it forgets names and order wherever
fingerprints tell apart the siblings and the traces at hand. Span IDs are unique in their
trace alone, so a renaming gives every trace new span IDs of its own.

`Fingerprint` models the fingerprint the code writes and a bracketed one. Two nodes have the
same written fingerprint exactly when their spans are equal and the groups below them are
written in the same order: where a list of children ends cannot be read. The bracketed one
always suffices (`ForestFingerprints`). The written one merges a trace of five spans and a
trace of four into one group that stands for ten spans or for eight, as their IDs are ordered.
What it keeps is characterised exactly: `WrittenSizes` proves that under all renamings the
forest of written fingerprints counts all spans exactly when equal texts stand for equally
many spans, and `WrittenNames` that it is the same under all renamings exactly when texts
tell apart everything that differs. `Grouping` says which span stands for a group,
`RenamingInvariants` what no renaming changes, and `Placement` and `RankedRenaming` build the
renamings that show the failures from the IDs already in use. `ShallowForest` proves that the
written fingerprint suffices as long as every trace is one root with its children.

**The capture server.** `CaptureFile`, `Capture`, `CaptureRuns` and `CaptureServer` model the
server as a state machine with one request per step, and as the objects that carry it out: live and frozen records of two protocols, counters,
limits, resets, and a JSON file that is rewritten whole or extended in place. A failed write
leaves the record out but can leave a torn file behind; a dump or reset that reaches the disk
repairs it, and from then on the file is complete until a write fails again.

**HTTP.** `HttpRequest` models reading a request from arbitrary pieces and `HttpHead` the head
parser. Pieces do not matter for streams of at most 16 MiB. For longer ones they matter
exactly when the request is accepted by its head and ends within 8190 bytes of the limit:
one read can then cross the limit and have a complete request refused.

**Base64 and matching.** `Base64` models the decoder for both alphabets. `IdentityCounts` and
`CaptureMatching` model the comparison of captures by identity counts and the greedy matching
of limited log records by swaps. The greedy number depends on the order of the baselines and
can miss the largest matching, but reaches at least half of it. `MatchingOrder` proves when
order does not matter: every order finds all eligible baselines exactly when no matching
leaves one out and takes every record that it could have had.

**Laws.** The theorems above speak through the definitions of their modules. `IdentityLaws`,
`ShapeLaws`, `StressLaws`, `MessagePackLaws`, `DictionaryLaws`, `ForestLaws`, `CaptureLaws`,
`HttpLaws`, `Base64Laws` and `MatchingLaws` tie these definitions to names, bytes, paths and
limits that are written out: which bytes stand for which value, which path reaches which
capture, which field comes from the dictionary, when two spans run at once. They hold in both
directions wherever they characterise a verdict.

`Basics` and `Wrappers` hold what several components share.

## Model

| member | source | states |
|---|---|---|
| NativeIdentity.ChunkHigh | harness/otel_sink/datadog.rs:666-682 | reading a chunk finds the one tag on which all its tagged spans agree, without regard to case, and fails only if they disagree |
| NativeIdentity.InheritTags | harness/otel_sink/datadog.rs:685-720 | the in-place fixpoint terminates, succeeds exactly when no component of initially untagged chunks touches two tags, and then leaves every chunk with its own tag, else the one tag its component touches, else none |
| NativeIdentity.SettledTouch | harness/otel_sink/datadog.rs:687-720 | once a round changes nothing, every chunk from which a walk through untagged chunks reaches a tag holds that tag |
| NativeIdentity.NeighbourTouches | harness/otel_sink/datadog.rs:692-712 | a tag held by a linked chunk at any moment of the loop is one the untagged chunk touches |
| NativeIdentity.OrderIndependence | harness/otel_sink/datadog.rs:685-720 | reordering the chunks changes neither acceptance nor the tag any chunk receives |
| NativeIndex.New | harness/otel_sink/datadog.rs:655-762 | indexing succeeds exactly when every chunk is valid, tags are unambiguous and the identities distinct, and yields the spans of every trace in arrival order under their parents |
| NativeIndex.BuildIndex | harness/otel_sink/datadog.rs:721-761 | the index fails exactly on a repeated identity; otherwise it holds every trace's spans, their positions, children and roots |
| NativeIndex.LinkTrace | harness/otel_sink/datadog.rs:752-760 | every span is listed under its parent if the trace holds it and among the roots if not, each once |
| NativeIndex.UniqueIsDistinct | harness/otel_sink/datadog.rs:721-751 | span IDs unique within each trace mean that the full identities of all spans are distinct |
| NativeIndex.DistinctIsUnique | harness/otel_sink/datadog.rs:721-751 | and conversely |
| IdentityLaws.SameLowerIff | harness/otel_sink/datadog.rs:675-681 | two tags are the same exactly when they agree character by character up to the case of ASCII letters |
| IdentityLaws.AgreeingTags | harness/otel_sink/datadog.rs:666-682 | a chunk has one tag to keep, or none, exactly when all its tags agree in that sense |
| IdentityLaws.DeclaresIff | harness/otel_sink/datadog.rs:666-682 | what is kept is the tag with each ASCII capital replaced by its small letter, present exactly when some span is tagged |
| IdentityLaws.NativeIff | harness/otel_sink/datadog.rs:655-751 | the sink accepts exactly chunks of positive spans of one trace ID with agreeing 16-digit tags in which no untagged chunk is linked through untagged ones to two tags, and no two spans share trace ID, full tag and span ID |
| IdentityLaws.IndexKeys | harness/otel_sink/datadog.rs:721-751 | the index lists traces by trace ID and full tag, sixteen zeros where a chunk receives none, and files every span under the tag of its chunk |
| ShapeLaws.IndexLinks | harness/otel_sink/datadog.rs:752-760 | a position is listed under another exactly when it names its span ID as parent, and among the roots when it names none of the trace, in ascending order |
| Shapes.Walk | harness/otel_sink/datadog.rs:1253-1380 | the walk succeeds exactly when every parent chain ends at a root within 64 steps; it then visits every span exactly once; it reports depth exactly when some reachable span is deeper; the visit guard never fires |
| Shapes.Node | harness/otel_sink/datadog.rs:1253-1339 | the walk below one node holds each span below it exactly once and raises the counter by their number |
| Shapes.SiblingsDisjoint | harness/otel_sink/datadog.rs:1322-1333 | the subtrees of different nodes of one level share no span, so no visit is repeated |
| Shapes.ReachedIffLevel | harness/otel_sink/datadog.rs:1367-1380 | the walk reaches a span exactly when its parent chain ends at a root |
| ShapeLaws.WalkIff | harness/otel_sink/datadog.rs:1253-1380 | the walk succeeds exactly when every span rises over parents to a root within 65 spans, and reports depth exactly when some span rises over more |
| ShapeLaws.ShapeIs | harness/otel_sink/datadog.rs:1253-1339 | a shape lists its own position before those of its children, which name its span as parent |
| StressIdentity.HalvingKeepsForest | harness/parallel_scenarios.go:121-127 | skipping one parent keeps the parent array acyclic and every element in its component |
| StressIdentity.LinkingKeepsForest | harness/parallel_scenarios.go:128-130 | linking one representative below another keeps the array acyclic and merges exactly two components |
| StressIdentity.Components.Find | harness/parallel_scenarios.go:121-127 | find with path halving terminates, returns the representative and changes no component |
| StressIdentity.Components.Join | harness/parallel_scenarios.go:128-130 | join moves exactly the elements of one component to the other's representative |
| StressIdentity.ComponentsExact | harness/parallel_scenarios.go:131-149 | two chunks share a representative exactly when they are connected by shared spans and parent links, although only the first chunk of each span ID is indexed |
| StressIdentity.JoinChunks | harness/parallel_scenarios.go:117-149 | after both joining loops the components are the connected components |
| StressIdentity.StressIndex | harness/parallel_scenarios.go:75-180 | the checker accepts exactly well-formed captures without an ambiguous untagged chunk and with distinct identities, and maps every identity to its only span |
| IdentityLaws.StressIff | harness/parallel_scenarios.go:75-180 | the checker accepts exactly chunks of positive spans with agreeing tags, an empty one counting as none, in which no untagged chunk meets two tags over chunks that share or link spans, and whose full identities are distinct |
| IdentityAgreement.AcceptedIsClean | harness/parallel_scenarios.go:160-179 | what the checker accepts has no shared span ID around an untagged chunk |
| IdentityAgreement.ComponentShares | harness/otel_sink/datadog.rs:685-720 | in a clean capture every chunk connected to an untagged one ends with that chunk's tag |
| IdentityAgreement.Agreement | harness/parallel_scenarios.go:114-179 | the checker accepts a comparable capture exactly when the sink accepts it and it is clean, and then both give every span the same identity |
| IdentityAgreement.BridgeSplitsTheVerdict | harness/parallel_scenarios.go:117-169 | a capture that the sink accepts and the checker rejects |
| Ownership.OwnerCache.Owner | harness/parallel_scenarios.go:277-306 | the memoised climb succeeds exactly when the chain to a server is short enough for the memo at hand, returns that server's request, and keeps every memoised owner right |
| Ownership.AcceptedIsOwned | harness/parallel_scenarios.go:307-312 | acceptance in any iteration order means that every captured span is owned |
| Ownership.EveryOrderAccepts | harness/parallel_scenarios.go:279-312 | every iteration order is accepted exactly when all spans are owned by chains of at most 65 spans |
| Ownership.SomeOrderAccepts | harness/parallel_scenarios.go:279-312 | some order is accepted exactly when all spans are owned, however long their chains |
| Ownership.VerdictIndependentOfOrder | harness/parallel_scenarios.go:279-312 | the verdict depends on the order exactly when all spans are owned but some by a longer chain |
| StressLaws.OrdersAccept | harness/parallel_scenarios.go:277-312 | every iteration order accepts exactly when each span climbs, parent by parent in its own trace, to one of the five named servers within 65 spans; some order does exactly when each climbs at all |
| StressValidation.ReadLedger | harness/parallel_scenarios.go:187-211 | the ledger is read exactly when entries are complete, IDs and places unique, and every execution numbered without a gap |
| StressValidation.MatchServers | harness/parallel_scenarios.go:212-276 | succeeds exactly when servers and requests are in bijection, no server's parent is captured and each pair matches |
| StressValidation.CountSql | harness/parallel_scenarios.go:307-329 | the counts are the numbers of SQL spans each request owns, and the loop succeeds exactly when every owner is found and every marker is right |
| StressValidation.ServersOverlap | harness/parallel_scenarios.go:335-342 | accepts exactly when at some instant two more server spans have begun than ended |
| StressValidation.ConcurrentSharesInstant | harness/parallel_scenarios.go:335-342 | without wrapped end times that means that two server spans share an instant |
| StressLaws.OverlapIff | harness/parallel_scenarios.go:335-342 | while start plus duration stays below 2 to the 63rd and durations are positive, the check passes exactly when two different servers run at one instant, each from its start for its duration |
| StressLaws.EndIs | harness/parallel_scenarios.go:335-339 | a larger sum wraps around by 2 to the 64th |
| StressValidation.Validate | harness/parallel_scenarios.go:182-344 | the verdict for any two map iteration orders: everything matches, and the owner climb succeeds in that order |
| StressValidation.EverySpanHasOneRequest | harness/parallel_scenarios.go:277-312 | after acceptance every captured span has exactly one server above it, whose request owns it and is listed exactly once |
| StressValidation.EveryRequestIsCaptured | harness/parallel_scenarios.go:212-334 | after acceptance every ledger entry has exactly one server span and as many SQL spans as it executed queries |
| StressLaws.LedgerIff | harness/parallel_scenarios.go:185-211 | the ledger is read exactly when entries are complete, IDs differ and each execution numbers its entries from 1 on, each once and without a gap |
| StressLaws.VerdictIff | harness/parallel_scenarios.go:182-334 | for owned captures the verdict says that servers and entries correspond one to one, nothing is captured above a server, every SQL span agrees with its entry and each entry owns as many as it counts |
| StressLaws.AcceptanceIff | harness/parallel_scenarios.go:182-344 | some pair of iteration orders accepts exactly when all of that holds, every span climbs to a server and two servers run at once |
| StressCheck.ValidateStress | harness/parallel_scenarios.go:182-344 | a list of chunks is accepted exactly when its spans can be captured by identity and the capture matches the ledger, whatever the two iteration orders |
| StressCheck.EveryListedSpanHasOneRequest | harness/parallel_scenarios.go:182-344 | in an accepted list every span of every chunk is captured under an identity of its own and has exactly one server above it, whose request is listed exactly once |
| Sweep.Overlap | harness/parallel_scenarios.go:346-369 | the loop computes the largest running sum of the sorted events |
| Sweep.PeakIsLargestDepth | harness/parallel_scenarios.go:346-369 | for any intervals that is the largest difference of begun and ended ones at an instant |
| Sweep.PeakIsMaximumDepth | harness/parallel_scenarios.go:346-369 | for proper intervals it is the maximum number of half-open intervals that contain one instant |
| Sweep.PeakOrderIndependent | harness/parallel_scenarios.go:346-369 | the order of the intervals does not matter |
| MessagePack.SignExtendIsTwosComplement | harness/otel_sink/datadog.rs:190-195 | shifting left, reinterpreting and shifting back is two's complement at widths 1, 2, 4 and 8 |
| MessagePackDecoder.Decoder.Take | harness/otel_sink/datadog.rs:100-111 | takes exactly n bytes if they are there, and leaves the cursor inside the payload |
| MessagePackDecoder.Decoder.ReadUInt | harness/otel_sink/datadog.rs:112-117 | reads n bytes as one big-endian number |
| MessagePackDecoder.Decoder.Charge | harness/otel_sink/datadog.rs:54-66 | what is charged is taken from what remains; nothing changes when the budget does not suffice |
| MessagePackDecoder.Decoder.Reserve | harness/otel_sink/datadog.rs:68-88 | a full vector is charged for its doubled capacity, a vector with room for nothing |
| MessagePackDecoder.Decoder.Items | harness/otel_sink/datadog.rs:125-134 | an array of n items is decoded exactly when n items fit one after the other |
| MessagePackDecoder.Decoder.Entries | harness/otel_sink/datadog.rs:135-168 | a map of n entries is decoded exactly when n keys and values fit and no key repeats, save equal text in a span's meta |
| MessagePackDecoder.Decoder.Value | harness/otel_sink/datadog.rs:169-266 | what is accepted is an item that fits with its meaning, provenance and charges; an item that fits is accepted; the node budget decreases |
| MessagePackDecoder.UniqueReading | harness/otel_sink/datadog.rs:169-266 | no two wire items begin with the same bytes |
| MessagePackDecoder.DecodePayload | harness/otel_sink/datadog.rs:297-323 | a payload is accepted exactly when it is one item within every budget; value, binary coordinates and charged bytes are that item's |
| MessagePackDecoder.OneReading | harness/otel_sink/datadog.rs:297-317 | a payload has at most one reading |
| MessagePackLaws.MeaningIff | harness/otel_sink/datadog.rs:135-266 | an item has a meaning exactly when its leaves are valid, its keys readable and no map repeats a key, save for equal text in the map under "meta" at the third step of an unindexed payload; it then means the one value that it writes |
| MessagePackLaws.ReadsIff | harness/otel_sink/datadog.rs:297-317 | a payload is read as an item exactly when it is the encoding of a sound item of at most 32 levels within the budgets, and returns the value that the item writes, a repeated text once |
| MessagePackLaws.NumberBytes | harness/otel_sink/datadog.rs:179-203 | the first bytes of numbers, null and the truth values at every width, most significant byte first, negative numbers in two's complement |
| MessagePackLaws.CountBytesAre | harness/otel_sink/datadog.rs:204-223 | the first bytes of text, arrays, maps and binary data at every width |
| MessagePackLaws.OneByte | harness/otel_sink/datadog.rs:177-214 | a payload of one byte is a number from 0 to 127 or from -32 to -1, null, a truth value, or the empty map, array or text; no other byte is a payload |
| MessagePackLaws.Utf8Iff | harness/otel_sink/datadog.rs:118-124 | text is accepted exactly when it is a sequence of characters in UTF-8 |
| MessagePackLaws.FiniteIff | harness/otel_sink/datadog.rs:196-203 | a float is refused exactly when its magnitude reaches the bits of infinity |
| MessagePackLaws.NestingLimit | harness/otel_sink/datadog.rs:169-178 | nested arrays are accepted exactly to a depth of 32 and with a node for each value |
| MessagePackLaws.BinaryLimit | harness/otel_sink/datadog.rs:219-232 | binary data at the root is accepted exactly when its bytes fit the byte budget and a value for each byte the allocation budget; it reads as the array of its bytes |
| MessagePackLaws.KeyIff | harness/otel_sink/datadog.rs:147-153 | a key is its text, or in the indexed layout U+0001, "index:" and the decimal form of a number that is not negative |
| MessagePackRoundTrip.RoundTrip | harness/otel_sink/datadog.rs:99-266 | every encoding of a value, in any legal widths, within depth and budgets decodes to that value and to nothing else |
| MessagePackDepth.DepthExact | harness/otel_sink/datadog.rs:219-263 | a value decoded from an item within a depth exceeds that depth exactly when binary data lies at it |
| MessagePackDepth.DecodedDepth | harness/otel_sink/datadog.rs:169-266 | an accepted payload decodes to at most 33 levels, and to at most 32 exactly when no binary data lies 32 levels below the root |
| MessagePackDepth.BinaryAddsALevel | harness/otel_sink/datadog.rs:219-263 | the 33rd level occurs: with ordinary budgets the decoder accepts a payload that decodes to 33 levels |
| DecoderBudget.AllocatedCoversCapacity | harness/otel_sink/datadog.rs:68-88 | the bytes charged for provenance cover the final capacity of both vectors |
| MessagePackLaws.ChargeIs | harness/otel_sink/datadog.rs:68-88 | a run has charged a value for each byte of binary data, the bytes of the recorded keys, and for each vector twice its capacity less one entry |
| MessagePackLaws.KeyBytesAre | harness/otel_sink/datadog.rs:241-246 | every recorded key is charged its bytes |
| MessagePackLaws.CapacityIsPower | harness/otel_sink/datadog.rs:68-88 | the capacity is the least power of two that suffices |
| DecoderBudget.AffordableEarlier | harness/otel_sink/datadog.rs:54-66 | budgets only shrink: what can be paid later could be paid before |
| DecoderBudget.ArrayGrows | harness/otel_sink/datadog.rs:125-134 | items that fit one after the other fit as an array |
| DecoderBudget.MapGrows | harness/otel_sink/datadog.rs:135-168 | entries that fit one after the other fit as a map |
| BinaryProvenance.RecordsPaths | harness/otel_sink/datadog.rs:20-52 | every recorded coordinate comes from a path of indexes and keys to a binary value, and every such path is recorded |
| BinaryProvenance.FieldsAreExact | harness/otel_sink/datadog.rs:235-247 | the recorded fields are exactly the binary values at traces[chunk][span].meta_struct[key] |
| BinaryProvenance.InvalidSpansAreExact | harness/otel_sink/datadog.rs:248-257 | the invalid spans are exactly those with a binary value at or inside them that is no such field |
| BinaryProvenance.ContainerFlagIsExact | harness/otel_sink/datadog.rs:258 | the container flag is set exactly when a binary value sits outside every span |
| DictionaryTraces.EscapeParsesBack | harness/otel_sink/datadog.rs:415-420 | the escape of a dictionary index parses back to the same number |
| DictionaryTraces.Lookup | harness/otel_sink/datadog.rs:348-361 | a lookup succeeds exactly for an index into the dictionary whose cost fits, and pays that cost |
| DictionaryTraces.ExpandMap | harness/otel_sink/datadog.rs:410-436 | a map expands exactly when it denotes one and its strings fit the budget, whatever the order of its entries |
| DictionaryTraces.Expand | harness/otel_sink/datadog.rs:370-446 | the expansion succeeds exactly when the payload denotes traces and the cost of all strings together fits the byte limit, and returns those traces |
| DictionaryTraces.DenotesOne | harness/otel_sink/datadog.rs:370-446 | a payload denotes at most one list of traces |
| DictionaryTraces.RoundTrip | harness/otel_sink/datadog.rs:370-446 | traces encoded against a dictionary of strings denote themselves and nothing else |
| DictionaryLaws.SpanIff | harness/otel_sink/datadog.rs:386-440 | a span expands exactly to twelve named fields: service, name, resource and type are looked up at positions 0, 1, 2 and 11, meta has keys and values from the dictionary, metrics its keys, and the other six stand unchanged at positions 3 to 8 |
| DictionaryLaws.PayloadIff | harness/otel_sink/datadog.rs:370-446 | a payload expands exactly when it is a pair of a list of strings and traces, trace by trace and span by span in order |
| DictionaryLaws.KeyIndexIff | harness/otel_sink/datadog.rs:415-420 | a key names an index exactly when it is U+0001, "index:", perhaps a plus sign, and decimal digits of a 64-bit number |
| DictionaryLaws.ExpansionCost | harness/otel_sink/datadog.rs:348-361 | the byte limit is spent on the strings that the result took from the dictionary, each with one value |
| DatadogPayload.DecodeTraces | harness/otel_sink/datadog.rs:297-328 | bytes of either layout decode exactly when they are one item within the budgets that, in the indexed layout, denotes traces within the byte limit, and to these traces alone |
| DictionaryLaws.CarriesIff | harness/otel_sink/datadog.rs:297-328 | in the indexed layout the bytes carry traces exactly when they are one item that expands to them within the byte limit, in the other when the item means them |
| Ordering.GroupBy | harness/otel_sink/trace_forest.rs:374-393 | the loop puts each run of equal keys into one group with the run's first element |
| Ordering.CountsAddUp | harness/otel_sink/trace_forest.rs:365-393 | the counts of one level add up to the number of grouped items, whatever the fingerprint |
| Ordering.WeightKept | harness/otel_sink/trace_forest.rs:365-393 | grouping keeps the total of any size wherever equal keys mean equal sizes |
| Ordering.SortForgetsOrder | harness/otel_sink/trace_forest.rs:365-368 | sorting by a key that separates the items forgets their order |
| Grouping.GatherHoldsFirst | harness/otel_sink/trace_forest.rs:365-393 | sorting and grouping keep of every key the first item of the input, and one group for it |
| Grouping.GatherWeight | harness/otel_sink/trace_forest.rs:365-393 | grouping gives every item the size of the first item with its key |
| Grouping.SameKeysSameGroups | harness/otel_sink/trace_forest.rs:365-393 | counts and keys of the groups depend only on how often each key occurs |
| Grouping.LightestFirst | harness/otel_sink/trace_forest.rs:365-393 | with the lightest items first the groups weigh no more than the items, and the same exactly when every item is exact and equal keys mean equal weights |
| Grouping.FirstDecides | harness/otel_sink/trace_forest.rs:365-393 | lists whose first items differ under one key are grouped differently |
| ParentChains.EnsureAcyclic | harness/otel_sink/trace_forest.rs:314-333 | succeeds exactly when following parents from the span comes to an end |
| ParentChains.ParentTopologyValid | harness/otel_sink/validation.rs:1219-1240 | the same for the validator's check, which keeps a list and goes one step further |
| ParentChains.SameVerdict | harness/otel_sink/validation.rs:1202-1240 | on the same spans both checks answer the same question |
| ForestLaws.ChainIff | harness/otel_sink/trace_forest.rs:314-333 | the check of one chain passes exactly when the ID is unknown or leads over known parents to one without |
| ParentChains.RootsFitIffShallow | harness/otel_sink/trace_forest.rs:335-352 | without cycles the trees below the roots stay within the depth limit exactly when no span has that many ancestors |
| ParentChains.TreesPartitionTrace | harness/otel_sink/trace_forest.rs:269-290 | the trees below the roots hold every span exactly once and nothing else |
| ParentChains.RootExists | harness/otel_sink/trace_forest.rs:283-285 | a trace without cycles has a root |
| TraceForest.BuildNode | harness/otel_sink/trace_forest.rs:335-363 | succeeds exactly when the span is known and nothing lies 128 or more levels down, and returns its grouped tree |
| TraceForest.BuildTrace | harness/otel_sink/trace_forest.rs:263-303 | succeeds exactly when there is one explicit root at most, no cycle and no span with 128 ancestors; coverage is complete exactly when no parent is missing; the branch for a missing root is never taken |
| TraceForest.Build | harness/otel_sink/trace_forest.rs:240-312 | succeeds exactly when identities are present and distinct and every trace is acceptable, and returns the grouped traces; never reports a missing root |
| ForestLaws.BuildableIff | harness/otel_sink/trace_forest.rs:240-352 | a forest is built exactly from spans with IDs of their own in every trace, at most one span of a trace without a parent, and at most 128 spans on the way from each to a root |
| ForestLaws.CoverageIff | harness/otel_sink/trace_forest.rs:269-300 | a trace is partial exactly when one of its spans names a parent that the trace does not hold |
| TraceForest.SplitByTrace | harness/otel_sink/trace_forest.rs:244-261 | fails exactly on an empty or repeated identity; otherwise files every span under its trace in order |
| ForestSizes.EverySpanPlaced | harness/otel_sink/trace_forest.rs:263-363 | after a successful build every span stands in exactly one tree, under its own parent, and no tree has more than 128 levels |
| ForestSizes.SizesKept | harness/otel_sink/trace_forest.rs:353-368 | where equal fingerprints of siblings stand for equally many spans, grouped sizes weighted by counts are the number of spans below |
| ForestSizes.ForestSizeKept | harness/otel_sink/trace_forest.rs:240-312 | where equal fingerprints of siblings, and of traces, stand for equally many spans, the forest stands for exactly as many spans as went in |
| ForestSizes.FaithfulForestInSizes | harness/otel_sink/trace_forest.rs:240-312 | fingerprints that tell siblings and traces apart also tell their sizes apart |
| ForestRenaming.SameNode | harness/otel_sink/trace_forest.rs:335-363 | renaming the spans of a trace leaves the grouped node of every span unchanged |
| ForestRenaming.AcceptanceForgetsNames | harness/otel_sink/trace_forest.rs:240-312 | any injective renaming of trace IDs and, trace by trace, of span IDs, and any order of the spans, keeps a list of spans acceptable |
| ForestRenaming.ForestForgetsNames | harness/otel_sink/trace_forest.rs:240-312 | it also gives the same forest where fingerprints tell siblings and traces apart |
| Fingerprint.GrandchildrenReadAsChildren | harness/otel_sink/trace_forest.rs:395-404 | the written fingerprint does not change when the children of a last child become its siblings |
| Fingerprint.WrittenCollides | harness/otel_sink/trace_forest.rs:395-404 | two nodes have the same written fingerprint exactly when their spans are equal and counts and spans below are written in the same order |
| Fingerprint.WrittenTraceCollides | harness/otel_sink/trace_forest.rs:406-412 | two traces have the same written fingerprint exactly when coverage is equal and counts and spans are written in the same order |
| Fingerprint.BracketedSeparatesNodes | harness/otel_sink/trace_forest.rs:395-404 | with a closing bracket after each list of children, equal fingerprints mean equal nodes |
| Fingerprint.BracketedSeparatesTraces | harness/otel_sink/trace_forest.rs:406-412 | the same for traces |
| Fingerprint.HeadEnds | harness/otel_sink/trace_forest.rs:395-399 | the five quoted fields of a span can be read back from any text that begins with them |
| ForestLaws.PlainHead | harness/otel_sink/trace_forest.rs:395-399 | of plain fields the head is scope, kind, status and name in quotation marks and the HTTP status, with U+001F between them |
| ForestLaws.StatusText | harness/otel_sink/trace_forest.rs:395-399 | an HTTP status of three digits is written as these digits in Some( and ) |
| ForestLaws.WrittenIs | harness/otel_sink/trace_forest.rs:395-404 | a group of children follows U+001E with its count, an asterisk and the text of its node |
| ForestLaws.NodeOrder | harness/otel_sink/trace_forest.rs:365-399 | of two plain nodes that differ in these fields the text of one is smaller exactly when its scope, else kind, else status, else name comes first; a missing HTTP status comes before any |
| ForestLaws.GroupsInOrder | harness/otel_sink/trace_forest.rs:365-393 | in every list of groups that the forest keeps, plain nodes stand in that order |
| ForestLaws.KeptLists | harness/otel_sink/trace_forest.rs:269-363 | the children of every node and the roots of every trace, built to a depth of 128, are such lists |
| ForestLaws.AtMostIff | harness/otel_sink/trace_forest.rs:365-368 | texts are ordered by the first character in which they differ, a beginning before the whole |
| ForestLaws.CoverageOrder | harness/otel_sink/trace_forest.rs:406-412 | complete traces come before partial ones |
| ForestFingerprints.BracketedForestIsCanonical | harness/otel_sink/trace_forest.rs:240-312 | with bracketed fingerprints every accepted list of spans keeps its size and its forest under renaming and reordering |
| ForestFingerprints.WrittenForestLosesCount | harness/otel_sink/trace_forest.rs:395-412 | nine spans of a deep and a flat trace, under any distinct IDs, are accepted and with the written fingerprint stand for ten or for eight spans, as the two trace IDs are ordered |
| ForestFingerprints.WrittenForestDependsOnNames | harness/otel_sink/trace_forest.rs:395-412 | for the same spans swapping the two trace IDs changes the forest |
| RenamingInvariants.SameText | harness/otel_sink/trace_forest.rs:395-404 | the written fingerprint of a span's node is the same under every renaming, although the node may not be |
| RenamingInvariants.SameTraceText | harness/otel_sink/trace_forest.rs:406-412 | so is that of a trace |
| RenamingInvariants.SameToldTrace | harness/otel_sink/trace_forest.rs:335-363 | whether equal texts of siblings stand for equally many spans is the same under every renaming |
| WrittenSizes.WrittenCountsSpansIff | harness/otel_sink/trace_forest.rs:240-312 | under all renamings the forest of written fingerprints counts all spans exactly when equal texts of siblings, and of traces, stand for equally many spans; renamings that use no new IDs decide it |
| WrittenNames.WrittenForestIsCanonicalIff | harness/otel_sink/trace_forest.rs:240-312 | under all renamings the forest of written fingerprints is the same exactly when they tell apart all siblings and all traces that differ; renamings that use no new IDs decide it |
| ShallowForest.StarForestIsCanonical | harness/otel_sink/trace_forest.rs:395-412 | where every trace is one root with its children the written fingerprint keeps size and form |
| Capture.RetainedBytesExact | harness/otel_sink/server.rs:607-644 | the charge of a record is the exact sum of its parts, refused exactly when it exceeds the machine word |
| CaptureServer.ProtocolCapture.FreezeRecords | harness/otel_sink/server.rs:295-299 | live records move behind the snapshot, which is created if there is none |
| CaptureServer.ProtocolCapture.Recount | harness/otel_sink/server.rs:245-248 | the counters become those of all captured records |
| CaptureServer.ProtocolCapture.ResetRecords | harness/otel_sink/server.rs:221-254 | each kind of reset drops its records from both parts, recounts and rewrites the file |
| CaptureServer.ProtocolCapture.IngestUpload | harness/otel_sink/server.rs:358-605 | an upload passes the checks in order; it is stored and counted, or refused with its status and the overflow flag where the code sets it; the decoding budget never underflows |
| CaptureServer.Server.HandleConnection | harness/otel_sink/server.rs:89-293 | a request changes the state of the one protocol it is routed to as that protocol's step says, and the other's not at all |
| CaptureLaws.NativeIntake | harness/otel_sink/server.rs:127-163 | uploads to "/v0.4/traces" and "/v0.5/traces" without a protocol, or with the protocol "datadog", work on the Datadog capture alone; with the protocol "otlp" they are refused |
| CaptureLaws.OpenIntake | harness/otel_sink/server.rs:127-163 | uploads to "/v1/traces", "/v1/metrics" and "/v1/logs" work on the OTLP capture alone, and are refused for the protocol "datadog" |
| CaptureLaws.NamedProtocol | harness/otel_sink/server.rs:127-163 | every other path works on the capture that is named, on the OTLP one by default |
| CaptureLaws.UnknownProtocol | harness/otel_sink/server.rs:127-136 | any other protocol is refused on every path |
| CaptureLaws.UploadAnswered | harness/otel_sink/server.rs:358-605 | an upload is answered with 200 exactly when content type, encoding and payload are accepted, fewer than 4096 records are held, sizes and charge are within the limits and the write succeeds; it is then the last live record, with the signal of its path and the spans and content of its payload, and counted |
| CaptureLaws.UploadRefused | harness/otel_sink/server.rs:358-580 | otherwise the first check that fails decides the status and whether the overflow flag is raised |
| CaptureLaws.DumpSends | harness/otel_sink/server.rs:180-196 | a dump sends all captured records, moves them behind the snapshot and writes them |
| CaptureLaws.SchemeDumpSends | harness/otel_sink/server.rs:197-209 | the Scheme dump does the same without writing |
| CaptureLaws.ReadsChangeNothing | harness/otel_sink/server.rs:167-220 | health, information and statistics change nothing |
| CaptureLaws.ResetDrops | harness/otel_sink/server.rs:221-254 | a reset drops the records of the signals in its path from both parts, keeps the others in order, clears statistics and flag and counts afresh |
| CaptureLaws.JudgesSnapshot | harness/otel_sink/server.rs:255-356 | candidates and validations see the snapshot, or the live records before any dump; a failed validation is counted and answered with 409 or 422 |
| CaptureLaws.OthersRefused | harness/otel_sink/server.rs:279-293 | every other request is answered with 405 or 404 and changes nothing |
| CaptureLaws.UnreadableOnlyFlags | harness/otel_sink/server.rs:101-122 | a request that was too large to be read raises the flag of a stress capture and does nothing else |
| CaptureLaws.StartsEmpty | harness/otel_sink/server.rs:23-87 | a server starts with nothing captured and a limit of 4 MiB, or of 64 MiB for a stress capture |
| CaptureRuns.FoldMeaning | harness/otel_sink/stats.rs:44-68 | folding the counters over records counts them by signal, adds up their charges, and adds up the spans of trace records only |
| CaptureRuns.KeptExactly | harness/otel_sink/server.rs:226-243 | a reset keeps exactly the records of the signals it does not name, as often as they occur |
| CaptureRuns.ResetKeepsAccounts | harness/otel_sink/server.rs:221-254 | a reset leaves counters exact and within the limits |
| CaptureRuns.IngestKeepsAccounts | harness/otel_sink/server.rs:442-580 | an upload leaves counters exact and within the limits, and with a successful write the file complete |
| CaptureRuns.AcceptedIffStored | harness/otel_sink/server.rs:559-605 | an upload is answered with 200 exactly when it became the last live record; otherwise no record and no counter but the overflow flag changes |
| CaptureRuns.RunInvariant | harness/otel_sink/server.rs:89-605 | after any requests the counters are the fold over frozen and live records and within the limits; if every write succeeded both files read back as the captured records |
| CaptureRuns.CaptureBounded | harness/otel_sink/server.rs:442-474 | no run holds more than 4096 records or more bytes than the limit in one protocol |
| CaptureRuns.RewriteRepairs | harness/otel_sink/server.rs:180-254 | a dump or reset that reaches the disk makes the file complete again, whatever was on it |
| CaptureRuns.DurableSinceRewrite | harness/otel_sink/server.rs:180-254 | over any run the file reads back as the captured records as long as no write failed since the last dump or reset that reached the disk |
| CaptureRuns.OtlpSeesOnlyItsOwn | harness/otel_sink/server.rs:127-165 | the OTLP capture of a run is that of the run's OTLP requests alone |
| CaptureRuns.DatadogSeesOnlyItsOwn | harness/otel_sink/server.rs:100-165 | so is the Datadog capture, up to its overflow flag, in every run |
| CaptureRuns.SnapshotStable | harness/otel_sink/server.rs:255-284 | over any run without a dump or reset of the protocol its snapshot stays, and every validation and candidate is computed from it |
| CaptureFile.OutputFile.AppendRecord | harness/otel_sink/storage.rs:61-86 | the seek, overwrite and append leave exactly the array with one element more |
| CaptureFile.AppendStores | harness/otel_sink/storage.rs:61-86 | a file that reads back as the records reads back as one record more after an append |
| CaptureFile.PrettyStores | harness/otel_sink/storage.rs:13-33 | a file written whole reads back as the records |
| CaptureLaws.RewrittenText | harness/otel_sink/storage.rs:13-33 | a rewritten file is one array with a record to a line, indented by two, and a final newline |
| CaptureLaws.AppendedText | harness/otel_sink/storage.rs:61-86 | an append overwrites the closing bracket and the newline, after a comma where the array was not empty |
| HttpRequest.FindInPrefix | harness/otel_sink/http.rs:364-368 | a prefix shows the first terminator exactly when it is long enough |
| HttpRequest.ReadRequest | harness/otel_sink/http.rs:71-252 | both reading loops compute the reading of the pieces |
| HttpRequest.ReadingOfStream | harness/otel_sink/http.rs:71-252 | for streams of at most 16 MiB any delivery gives the request or rejection that the bytes mean, the header limit included |
| HttpRequest.OvershootRefused | harness/otel_sink/http.rs:233-244 | for other streams there is a delivery in which a complete request is refused because one read crosses the limit |
| HttpRequest.ReadingIndependentIffRoomy | harness/otel_sink/http.rs:71-252 | the delivery does not matter exactly when the stream fits the limit, the head is refused, or the request leaves room for one read |
| HttpLaws.WholeRequest | harness/otel_sink/http.rs:71-252 | within 16 MiB a head of more than 64 KiB is refused, then what the parser refuses, then a body over its limit; what is left is the announced body or an early end |
| HttpLaws.EndlessHead | harness/otel_sink/http.rs:75-101 | without a blank line the head is too large from 64 KiB on, and cut short before |
| HttpLaws.DeliveryMattersIff | harness/otel_sink/http.rs:71-252 | the same condition in numbers: 16 MiB, a refusal, or an end at least 8191 bytes before the limit |
| HttpHead.TrimFieldValue | harness/otel_sink/http.rs:327-341 | the two loops strip blanks from both ends |
| HttpHead.ParseFieldLines | harness/otel_sink/http.rs:144-168 | the loop over the lines reads the fields or reports the first refusal |
| HttpHead.ParseRender | harness/otel_sink/http.rs:114-232 | a head written from valid fields reads back as the same fields, body length and limit |
| HttpHead.NoTerminatorInside | harness/otel_sink/http.rs:76-86 | a terminator cannot begin inside the joined lines of a head |
| HttpHead.WrittenRequestIsRead | harness/otel_sink/http.rs:71-252 | a request of valid fields and the announced body is read back exactly, however it is delivered and whatever follows it |
| HttpLaws.SpelledFieldReads | harness/otel_sink/http.rs:127-151 | a field written in any letter case, with any blanks around its value, is read as its name with each capital replaced by its small letter, byte by byte, and its bare value |
| HttpLaws.AnyCaseRequestIsRead | harness/otel_sink/http.rs:71-252 | a request whose field names are written in any letter case is read back with the body that it announces |
| HttpLaws.FieldLineIff | harness/otel_sink/http.rs:132-147 | a line is a field exactly when name characters stand before its first colon and no control character but tabs behind it |
| HttpLaws.RequestLineIff | harness/otel_sink/http.rs:105-124 | a request line is a verb, a path and HTTP/1.1 with one space between them, in ASCII |
| HttpLaws.WrittenLength | harness/otel_sink/http.rs:170-181 | a length in decimal digits is read as that number if it fits 64 bits, and refused if not |
| HttpLaws.HeadRefusedIff | harness/otel_sink/http.rs:126-181 | a well-formed head is refused exactly for more than 128 fields, a field that may not occur or not twice, or a length that does not fit |
| HttpLaws.ValidationLimit | harness/otel_sink/http.rs:187-198 | a source to validate may have 256 KiB, or 4 MiB when the first protocol in the query is "datadog" |
| HttpLaws.ValidationDefault | harness/otel_sink/http.rs:187-198 | without a protocol in the query it may have 256 KiB |
| HttpLaws.UploadLimits | harness/otel_sink/http.rs:187-209 | native uploads have the limit set for them, OTLP uploads 1 MiB, everything but these and sources to validate 16 MiB |
| Base64.DecodeBase64 | harness/otel_sink/otlp_json.rs:1043-1087 | returns the bytes that the text canonically encodes, and nothing exactly when it encodes none |
| Base64.Run | harness/otel_sink/otlp_json.rs:1069-1076 | between characters at most six bits wait, and the buffer holds no others |
| Base64.RoundTrip | harness/otel_sink/otlp_json.rs:1043-1087 | every encoding, in either alphabet, padded or not, decodes to its bytes |
| Base64.EncodesOne | harness/otel_sink/otlp_json.rs:1043-1087 | a text encodes at most one byte string |
| Base64.EncodedIsCanonical | harness/otel_sink/otlp_json.rs:1043-1087 | an accepted text is, up to the alphabet, the padded or unpadded encoding of its bytes |
| Base64.SextetsUndoRun | harness/otel_sink/otlp_json.rs:1065-1076 | whatever leaves only zero bits is the encoding of the output |
| Base64Laws.EncodesIff | harness/otel_sink/otlp_json.rs:1043-1087 | a text encodes bytes exactly when each group of four letters of either alphabet writes the 24 bits of three bytes and the last two or three letters those of one or two, zero bits after them, with all equals signs or none |
| Base64Laws.LetterIs | harness/otel_sink/otlp_json.rs:1059-1066 | the letters of both alphabets stand for their values; 62 and 63 are written + and / or - and _ |
| IdentityCounts.MatchingIdentityCounts | harness/external_features/capture.go:2164-2181 | the two numbers are the expected total and the shared occurrences, and they agree exactly when the counts agree |
| IdentityCounts.MatchingWorkloadIdentityCounts | harness/external_features/capture.go:830-836 | they agree exactly when identities, structure and trace partitions all agree |
| IdentityCounts.SameIdentityCounts | harness/external_features/capture.go:838-848 | true exactly for maps of the same size with the same counts |
| IdentityCounts.SameCountsIsEquality | harness/external_features/capture.go:2164-2181 | for counts that come from counting this is equality of the multisets |
| MatchingLaws.CommonIsIntersection | harness/external_features/capture.go:2156-2181 | the expected number is the size of the baseline's collection of identities, the matched number that of its intersection with the other |
| MatchingLaws.SameIsEqual | harness/external_features/capture.go:2164-2181 | for positive counts the comparison passes exactly when the two collections are equal |
| CaptureMatching.AttributeMultisetSubset | harness/external_features/capture.go:2084-2101 | true exactly when the attributes are a sub-multiset of the baseline's |
| CaptureMatching.LimitedCountLogStreamRecords | harness/external_features/capture.go:1909-1937 | the swapping loops compute the greedy numbers |
| CaptureMatching.GroupsStayPermutations | harness/external_features/capture.go:1917-1928 | every baseline group stays a permutation of itself |
| CaptureMatching.GreedyIsMaximalMatching | harness/external_features/capture.go:1909-1937 | the second number counts a one-to-one matching of baselines and records, each pair an exact drop of its own baseline, to which no pair can be added |
| MatchingLaws.PairIff | harness/external_features/capture.go:2046-2058 | a baseline and a record pair exactly when they have one identity, the record has as many attributes as the limit and the baseline more, each at most as often, and the record counts as dropped what the baseline had dropped and what is missing |
| MatchingLaws.NumbersAre | harness/external_features/capture.go:1909-1937 | the first number counts the named baselines over the limit, the second a one-to-one pairing of that kind to which no pair can be added |
| CaptureMatching.CompleteIffAllMatched | harness/external_features/capture.go:1929-1937 | the two numbers agree exactly when every eligible baseline is matched |
| CaptureMatching.GreedyAtLeastHalf | harness/external_features/capture.go:1917-1928 | no matching has more than twice as many pairs |
| CaptureMatching.GreedyDependsOnOrder | harness/external_features/capture.go:1917-1928 | two baselines in one order give two pairs, in the other order one |
| MatchingOrder.TakenInOrder | harness/external_features/capture.go:1917-1928 | records that pair with the baselines in order are taken in order |
| MatchingOrder.CompleteInEveryOrderIff | harness/external_features/capture.go:1909-1937 | every order of baselines and records finds all eligible baselines exactly when no matching leaves one out and takes every record that it could have had |

## Left out

- Integer widths: IDs, lengths and timestamps are unbounded numbers, with a bound written out where the code relies on one (the sign extension, checked sums, dictionary indexes, content lengths). Base64 is proved to stay far below 32 bits.
- Field checks of native spans: the parts of the span check that no other code depends on are one flag, `otherFieldsValid`. The binary coordinates it consults are proved exact in `BinaryProvenance`.
- NativeIndex.New: does not build the map from span addresses to positions, and the ancestor queries on it are not modelled.
- NativeIndex.BuildIndex: the same map is left out.
- Shapes.Walk: what is printed, the sorting of children and roots, the exception check and the service check are not modelled; a shape is a span position with its children.
- Shapes.Node: the same is left out for one node.
- StressValidation.MatchServers: the comparison of one server with its request (service, status, path, propagated context) is a parameter into which only that pair enters.
- StressValidation.CountSql: the check of an SQL marker is such a parameter as well.
- StressValidation.Validate: takes both as parameters; that it begins with the index is in `StressCheck`.
- StressCheck.ValidateStress: begins with decoded chunks; reading them from JSON is not modelled.
- StressValidation.ServersOverlap: end times are values of the input, so a wrapped sum of start and duration is an end before its start; `ConcurrentSharesInstant` asks for ends behind their starts.
- MessagePackDecoder.DecodePayload: the JSON intake path and the conversion of floating-point bits are not modelled; a float is its bit pattern with a test for finiteness. Sizes of values and vector elements are parameters of the frame. Sorting and deduplicating the coordinates after decoding is not modelled; the exactness lemmas speak about membership.
- DictionaryTraces.Expand: it is modelled on values; that moving values avoids copies is not captured. All failures but a wrong shape share one error.
- TraceForest.Build: collecting spans from typed and JSON payloads, with its field checks, is not modelled.
- Fingerprint.HeadEnds: in debug rendering only ASCII control characters, quotes and backslashes are escaped; the library escapes some unprintable characters beyond ASCII as well.
- CaptureServer.ProtocolCapture.IngestUpload: the answers of the content-type and encoding checks, of the payload decoder and of serialization are inputs, so that the results hold for all of them. Records carry an opaque payload. Validation statistics keep the numbers of runs and failures only, not durations or calls.
- CaptureServer.Server.HandleConnection: the split of the target into path and query is an input. Response bodies are the records sent or judged.
- CaptureFile.OutputFile.AppendRecord: a file is a sequence of whole tokens with widths in bytes, not of bytes; what a failing write leaves behind is arbitrary.
- HttpHead.ParseRender: the check of a bracketed IPv6 host is a parameter. Reading errors and the end of a stream are one ending of the list of pieces.
- CaptureMatching.AttributeMultisetSubset: an attribute is its key and normalized value in one text; JSON normalization is not modelled, and dropped counts are integers.
- CaptureMatching.LimitedCountLogStreamRecords: a baseline record is its position among the baselines, as the original holds references; identities are given.
- Sockets, clocks, process launch, the virtual machine that evaluates contracts, the field-allowlist validators and the printers are not part of this model.
