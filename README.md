# stupid-simple-kv in Dafny

A model of the core of stupid-simple-kv, an ordered key-value store written in Rust. Keys are tuples of
primitives (`u64`, `i64`, `bool`, strings). They are encoded into byte strings whose lexicographic order
is the store's order. Values are `KvValue` trees, serialised by bincode. The repository holds two
incompatible iterations of the key code. Each is modelled in its own modules, and their byte layouts are
never mixed.

**Current iteration.** These are the files reachable from `src/lib.rs`.

- `KeySegment` is the segment encoder. Its tags are U64 = 0x01, I64 = 0x02, Bool = 0x03 and String = 0x04. A string carries an 8-byte big-endian length.
- `KeyDecoder` is the cursor decoder, a class whose `rem` field each `next_*` advances. It also holds tuple decoding and `TryFrom<KvKey>`.
- `Display` renders a key as a colon-separated string and parses such a string back into a key.
- `ListBuilder` is the selector resolver plus the decode loop of `KvListBuilder::entries`.
- `Backend` holds the documented `KvBackend` contract.
- `MemoryBackends` is the `BTreeMap` backend. It is a class over a strictly ascending association list.
- `KvStore` is the `Kv` facade.
- `KvValues` and `JsonTree` hold the `KvValue` enum and its conversion to and from a JSON tree.

**Earlier iteration.** This is dead code still in the tree.

- `LegacyKeys` is `Key` with its derived order, plus `DecodeError`.
- `LegacyEncode` is `KeyEncoder::encode_key`. Its tags are string = 0x01 with a 4-byte length, u64 = 0x02, i64 = 0x03 and bool = 0x05.
- `LegacyDecode` is the earlier cursor decoder.
- `LegacyEncoding` is `encoding.rs`: `IntoKey`, `FromKey` and `FromKeySeg` for primitives, keys and tuples.
- `LegacyKeyTraits` is `key_traits.rs`, where tuples may nest.
- `LegacyListBuilder` is the filter-sort-decode list builder.
- `LegacyStorage` is the `HashMap` backend.

**Shared helpers.**

- `Wrappers` holds Option and Result.
- `Bytes` holds the `byte`, `u64` and `i64` ranges.
- `BigEndian` holds big-endian and two's-complement conversions.
- `LexOrder` is the lexicographic order of `Vec<u8>`, with prefixes.
- `Utf8` is the well-formedness predicate of RFC 3629.
- `Decimal` renders ASCII decimals.
- `KvKeys` holds `KvKey`, `successor` and a growable byte buffer class (`ByteBuf`, the `Vec<u8>` that encoders push into).
- `ValueCodec` is the bincode value codec, as an abstract encode/decode pair.

Tuples of every arity become `seq<Segment>` (current) or `seq<Component>` (earlier). Each
`encode_into` is a method that appends to a `ByteBuf`. Each decoder is a class whose methods are proved
against a parsing function, and the round trips, orders and failure cases are lemmas about those
functions.

## Model

| member | source | states |
|---|---|---|
| KvKeys.Successor | src/list_builder.rs:73 | `successor` is None exactly when every byte is 0xFF; otherwise it is above the key and above every extension of it |
| KvKeys.PrefixRangeIsExact | src/lib.rs:125 | a key lies in `[k, successor(k))` (unbounded when there is no successor) exactly when `k` is a prefix of it |
| KvKeys.SuccessorIsLeast | src/list_builder.rs:72-75 | every key above `k` that does not extend `k` is at or above `successor(k)`, so the prefix scan stops at the first non-extension |
| KvKeys.ByteBuf.Push | src/keys/key_segment.rs:17 | `push` appends one byte and changes nothing else |
| KvKeys.ByteBuf.ExtendFromSlice | src/keys/key_segment.rs:18 | `extend_from_slice` appends the slice |
| LexOrder.LessTotal | src/lib.rs:7 | the byte order of keys is total: two keys are equal or one is below the other |
| LexOrder.LessTransitive | src/lib.rs:7 | the byte order of keys is transitive |
| LexOrder.LessIrreflexive | src/lib.rs:7 | no key is below itself |
| LexOrder.PrefixIsLess | src/lib.rs:7 | a proper prefix sorts before each of its extensions |
| LexOrder.CommonPrefix | src/lib.rs:7 | a shared prefix does not change how two keys compare |
| BigEndian.FromToBE | src/keys/key_segment.rs:18 | reading the big-endian bytes of a value in range gives the value back |
| BigEndian.LessIsNumeric | src/keys/key_segment.rs:17-18 | among byte strings of one length, byte order is numeric order of their big-endian values |
| BigEndian.BitsRoundTrip | src/keys/key_segment.rs:24-25 | two's-complement reinterpretation between `i64` and `u64` is a bijection |
| Decimal.DecimalOf | src/keys/display.rs:60 | the decimal text of `n` is non-empty, all digits, and denotes `n` |
| KeySegment.U64Bytes | src/keys/key_segment.rs:15-20 | a u64 segment is 9 bytes: tag 0x01, then bytes whose big-endian value is the number |
| KeySegment.I64Bytes | src/keys/key_segment.rs:22-27 | an i64 segment is 9 bytes: tag 0x02, then the two's-complement bits of the number |
| KeySegment.SegmentBytes | src/keys/key_segment.rs:3-9 | every segment starts with its type's tag and is at least 2 bytes long |
| KeySegment.FirstByteFixesType | src/keys/key_segment.rs:3-9 | two segments have the same first byte exactly when they have the same type |
| KeySegment.EncodeKeyAppend | src/keys/key_segment.rs:52-66 | the key of a concatenation of tuples is the concatenation of their keys |
| KeySegment.EncodeKeyFront | src/keys/key_segment.rs:52-66 | a tuple key is its first segment's bytes followed by the key of the rest |
| KeySegment.EncodeU64Into | src/keys/key_segment.rs:15-20 | `u64::encode_into` appends exactly the u64 segment to `out` |
| KeySegment.EncodeI64Into | src/keys/key_segment.rs:22-27 | `i64::encode_into` appends exactly the i64 segment to `out` |
| KeySegment.EncodeBoolInto | src/keys/key_segment.rs:29-34 | `bool::encode_into` appends `[0x03, 1]` or `[0x03, 0]` |
| KeySegment.EncodeStrInto | src/keys/key_segment.rs:36-50 | `String` and `&str` both append tag 0x04, the 8-byte length and the bytes |
| KeySegment.EncodeInto | src/keys/key_segment.rs:15-50 | the segment of any type is appended to `out` and nothing else changes |
| KeySegment.ToKey | src/keys/key_segment.rs:52-66 | a tuple's `to_key` is the concatenation of its components' segments in field order |
| KeyOrder.U64Order | src/keys/key_segment.rs:17-18 | u64 segments compare as their numbers do |
| KeyOrder.BoolOrder | src/keys/key_segment.rs:29-34 | `false` sorts before `true` |
| KeyOrder.I64OrderSameSign | src/keys/key_segment.rs:24-25 | i64 segments of the same sign compare as their numbers do |
| KeyOrder.NegativeSortsAfterNonNegative | src/keys/key_segment.rs:24-25 | every negative i64 sorts after every non-negative one, against the order claim of src/lib.rs:7 |
| KeyOrder.MinusOneAfterZero | src/keys/key_segment.rs:24-25 | concretely, the key of -1 sorts after the key of 0 |
| KeyOrder.StrOrderEqualLength | src/keys/key_segment.rs:38-40 | strings of equal length compare as their bytes do |
| KeyOrder.ShorterStringFirst | src/keys/key_segment.rs:38-40 | a shorter string always sorts first, whatever its bytes |
| KeyOrder.ShortStringExample | src/keys/key_segment.rs:38-40 | "b" sorts before "aa" as a key although "aa" < "b" as text |
| KeyOrder.DifferentTypesOrderByTag | src/keys/key_segment.rs:3-9 | segments of different types compare by tag, whatever follows them |
| KeyOrder.SegmentOrder | src/lib.rs:7 | two comparable segments have equal-length encodings, equal exactly when the segments are equal, and ordered as the segments are |
| KeyOrder.TupleOrder | src/lib.rs:7 | for componentwise comparable tuples, key order is the lexicographic order of the tuples |
| KeyDecoder.ParseU64 | src/keys/key_decoder.rs:47-55 | a u64 is read exactly when 9 bytes start with tag 0x01; the input is its segment followed by the rest |
| KeyDecoder.ParseI64 | src/keys/key_decoder.rs:37-46 | an i64 is read exactly when 9 bytes start with tag 0x02; the input is its segment followed by the rest |
| KeyDecoder.ParseBool | src/keys/key_decoder.rs:28-36 | a bool is read exactly when 2 bytes start with tag 0x03, and it is true for any non-zero payload |
| KeyDecoder.ParseStr | src/keys/key_decoder.rs:13-27 | a string is read exactly when tag, 8-byte length, that many bytes and valid UTF-8 are all present |
| KeyDecoder.NextStrAsWritten | src/keys/key_decoder.rs:19 | with 64-bit `9 + len`, `next_str` panics exactly when the declared length is past `usize::MAX - 9`, and otherwise agrees with `ParseStr` |
| KeyDecoder.NextStrOverflowPanics | src/keys/key_decoder.rs:19 | a 9-byte input declaring length 2^64-1 makes `next_str` panic where `None` is intended |
| KeyDecoder.ParseSegment | src/keys/key_decoder.rs:62-90 | a decoded segment has the requested type, is well formed, and consumes exactly its own encoding |
| KeyDecoder.ParseSegmentRoundTrip | src/keys/key_decoder.rs:13-55 | decoding a segment's bytes followed by any rest gives the segment and leaves the rest |
| KeyDecoder.WrongTagFails | src/keys/key_decoder.rs:14 | a wrong leading tag makes the read fail |
| KeyDecoder.ShortInputFails | src/keys/key_decoder.rs:29 | input shorter than the fixed header makes the read fail |
| KeyDecoder.BoolAnyNonZero | src/keys/key_decoder.rs:32-34 | any payload byte is accepted, and every non-zero one reads as true |
| KeyDecoder.StrFailures | src/keys/key_decoder.rs:18-23 | a declared length past the end of the input, or bytes that are not UTF-8, make the string read fail |
| KeyDecoder.U64BytesInjective | src/keys/key_decoder.rs:47-55 | u64 layouts followed by rests are equal only for equal numbers and rests |
| KeyDecoder.I64BytesInjective | src/keys/key_decoder.rs:37-46 | i64 layouts followed by rests are equal only for equal numbers and rests |
| KeyDecoder.StrBytesInjective | src/keys/key_decoder.rs:13-27 | string layouts followed by rests are equal only for equal strings and rests |
| KeyDecoder.DecodeTuple | src/keys/key_decoder.rs:92-107 | tuple decoding yields one segment per type, or the index of the first type that failed |
| KeyDecoder.DecodeTupleTyped | src/keys/key_decoder.rs:92-107 | a decoded tuple has exactly the requested types and well-formed segments |
| KeyDecoder.DecodeTupleRoundTrip | src/keys/key_decoder.rs:92-107 | decoding a tuple's key followed by any bytes gives the tuple back and leaves those bytes |
| KeyDecoder.TooManyComponentsFail | src/keys/key_decoder.rs:92-107 | asking for one more component than the key holds fails at that component |
| KeyDecoder.TryFromKey | src/keys/key_decoder.rs:119-136 | `TryFrom<KvKey>` returns one value per type parameter, or `KeyDecodeError` naming a parameter |
| KeyDecoder.TryFromKeyRoundTrip | src/keys/key_decoder.rs:119-136 | a tuple's key decodes back to the tuple, and trailing bytes are ignored |
| KeyDecoder.FirstMismatchFails | src/keys/key_decoder.rs:119-136 | a key whose first segment has another type fails at parameter 0, e.g. a (u64, bool) key read as (bool, u64) |
| KeyDecoder.LongerTupleFails | src/keys/key_decoder.rs:119-136 | reading a key as a longer tuple fails at the first missing parameter |
| KeyDecoder.Decoder.constructor | src/keys/key_decoder.rs:9 | `new` puts the cursor at the start of the input |
| KeyDecoder.Decoder.NextU64 | src/keys/key_decoder.rs:47-55 | returns what `ParseU64` reads and advances `rem` past it; a failure leaves `rem` unchanged |
| KeyDecoder.Decoder.NextI64 | src/keys/key_decoder.rs:37-46 | returns what `ParseI64` reads and advances `rem` past it; a failure leaves `rem` unchanged |
| KeyDecoder.Decoder.NextBool | src/keys/key_decoder.rs:28-36 | returns what `ParseBool` reads and advances `rem` past it; a failure leaves `rem` unchanged |
| KeyDecoder.Decoder.NextStr | src/keys/key_decoder.rs:13-27 | returns what `ParseStr` reads and advances `rem` past it; a failure leaves `rem` unchanged |
| KeyDecoder.Decoder.NextSegment | src/keys/key_decoder.rs:62-90 | `from_kv_key` for one type: what `ParseSegment` reads, with `rem` advanced on success only |
| KeyDecoder.Decoder.NextTuple | src/keys/key_decoder.rs:92-107 | tuple `from_kv_key` threads the cursor left to right and returns what `DecodeTuple` computes; on failure at component `i` the cursor stands after the first `i` components, where decoding that prefix of the tuple leaves it |
| KeyDecoder.TryFromKvKey | src/keys/key_decoder.rs:119-136 | the cursor-based conversion agrees with `TryFromKey` |
| Display.EscapeString | src/keys/display.rs:17-32 | the char-by-char escape loop computes `Escape` |
| Display.Escape | src/keys/display.rs:17-32 | escaping keeps every byte but '\' and ':', doubles ':' into "\:", and drops a lone '\', so the text at most doubles in length |
| Display.EscapeFirstNotColon | src/keys/display.rs:27-28 | an escaped string never starts with a bare ':' |
| Display.EscapedColonsArePreceded | src/keys/display.rs:20-28 | every ':' of an escaped string directly follows a '\' |
| Display.LoneBackslashDropped | src/keys/display.rs:20-26 | for every text, a backslash not followed by ':' is dropped: escaping `\` + s gives the escaping of s |
| Display.EscapePlain | src/keys/display.rs:17-32 | a string without ':' and '\' is unchanged by escaping |
| Display.ToDisplayString | src/keys/display.rs:4-68 | the rendering loop computes the corrected rendering `DisplayString` (see "## Left out" for the two corrections) |
| Display.RenderStep | src/keys/display.rs:7-61 | one loop iteration: the segment at the head becomes its part, and the rest is strictly shorter, so the loop ends; strings use the corrected `9 + len` check |
| Display.DisplayString | src/keys/display.rs:4-68 | the corrected `to_display_string`; the empty key renders as the empty string |
| Display.DisplayEncoded | src/keys/display.rs:4-68 | a well-formed key renders as its segments' parts joined by ':' |
| Display.RenderSegment | src/keys/display.rs:35-61 | each segment renders as: u64 decimal, i64 ≥ 0 as digits and "i", negative i64 as "-" and the magnitude, bool as true/false, string escaped |
| Display.UnknownTagFails | src/keys/display.rs:62-65 | an unknown tag after any readable segments gives None, not a partial string |
| Display.TruncatedSegmentFails | src/keys/display.rs:8-14 | a truncated last segment gives None |
| Display.I64TextAsWritten | src/keys/display.rs:51 | with 64-bit `-n`, rendering agrees with `I64Text` except at i64::MIN, where it panics or wraps |
| Display.WrappedMinimumReadsAsString | src/keys/display.rs:51 | i64::MIN panics with overflow checks; without them its text "--…" reads back as a string |
| Display.MinimumRoundTrips | src/keys/display.rs:51 | with the magnitude computed exactly, i64::MIN's text reads back as i64::MIN |
| Display.SplitDisplay | src/keys/display.rs:77-89 | the splitting loop computes `Split`, which cuts at unescaped ':' and turns "\:" into ':' |
| Display.Split | src/keys/display.rs:77-89 | every display string splits into at least one part, and the empty string into one empty part, since the last buffer is always pushed |
| Display.SplitJoinAll | src/keys/display.rs:77-89 | splitting the ':'-join of escaped backslash-free texts gives the texts back |
| Display.ClassifyText | src/keys/display.rs:91-129 | the fixed-priority type guess reads a displayable segment's text back as that segment |
| Display.ClassifyPart | src/keys/display.rs:91-129 | a part becomes a bool exactly when it is "true" or "false"; a u64 only when it is all digits, with their value; otherwise the string is the part itself |
| Display.ParseDisplayString | src/keys/display.rs:70-132 | parsing always returns Some: the key of the classified parts of the split string |
| Display.DisplayRoundTrip | src/keys/display.rs:70-132 | parsing the display of a non-empty key of displayable segments gives the key back |
| Display.EmptyKeyDoesNotRoundTrip | src/keys/display.rs:89 | the empty key renders as "" and reads back as the one-segment key of the empty string |
| Display.StringTrueReadsAsBool | src/keys/display.rs:93-96 | the string "true" renders as true and reads back as the bool, not the string |
| Backend.ContractDeterminesRange | src/backends/mod.rs:10-13 | at most one output meets the range contract: ascending, and exactly the stored entries in the range |
| Backend.RangeContract | src/backends/mod.rs:10-13 | an answer of `get_range` is ascending and holds exactly the stored entries with key in `[start, end)`, each with its stored value |
| Backend.EntryInAsMap | src/backends/mod.rs:12 | an ascending entry list holds an entry exactly when its map stores that value under that key |
| Backend.AscendingSameMembers | src/backends/mod.rs:13 | two ascending lists with the same members are equal |
| MemoryBackends.Insert | src/backends/memory_backend.rs:47-48 | insertion adds only the given key |
| MemoryBackends.InsertAscending | src/backends/memory_backend.rs:47-48 | insertion keeps the list strictly ascending |
| MemoryBackends.InsertAsMap | src/backends/memory_backend.rs:47-48 | after insertion the map is the old map with the key set to the value |
| MemoryBackends.Remove | src/backends/memory_backend.rs:49-50 | removal keeps every entry with another key and drops the key's own |
| MemoryBackends.RemoveAscending | src/backends/memory_backend.rs:49-50 | removal keeps the list strictly ascending |
| MemoryBackends.RemoveAsMap | src/backends/memory_backend.rs:49-50 | after removal the map is the old map without the key |
| MemoryBackends.RemoveAbsent | src/backends/memory_backend.rs:49-50 | removing an absent key changes nothing |
| MemoryBackends.Range | src/backends/mod.rs:13 | the corrected range holds exactly the stored entries in `[start, end)` |
| MemoryBackends.RangeAscending | src/backends/memory_backend.rs:29-42 | range output is strictly ascending |
| MemoryBackends.RangeMeetsContract | src/backends/mod.rs:13 | range output meets the backend contract |
| MemoryBackends.RangeUnbounded | src/backends/memory_backend.rs:39 | with neither bound every entry is returned |
| MemoryBackends.EqualBoundsEmpty | src/backends/mod.rs:13 | the half-open range from a key to itself is empty |
| MemoryBackends.ClosedRange | src/backends/memory_backend.rs:31-32 | the closed range holds exactly the entries between the bounds, both included |
| MemoryBackends.RangeAsWritten | src/backends/memory_backend.rs:29-40 | `get_range` as written panics exactly when start > end |
| MemoryBackends.ClosedRangeBreaksContract | src/backends/memory_backend.rs:31-32 | with start == end a stored key is returned, which the half-open contract excludes |
| MemoryBackends.ReversedBoundsPanic | src/backends/memory_backend.rs:34 | reversed bounds make `BTreeMap::range` panic where the contract asks for an empty result |
| MemoryBackends.AsWrittenAgreesElsewhere | src/backends/memory_backend.rs:29-40 | when start < end or a bound is missing, the code as written agrees with the corrected range |
| MemoryBackends.MemoryBackend.constructor | src/backends/memory_backend.rs:14-18 | `new` gives an empty map |
| MemoryBackends.MemoryBackend.GetRange | src/backends/memory_backend.rs:22-43 | returns the corrected range, which meets the backend contract |
| MemoryBackends.MemoryBackend.Set | src/backends/memory_backend.rs:45-53 | `Some(v)` stores v under the key and `None` removes it; every other key is unchanged |
| MemoryBackends.MemoryBackend.Clear | src/backends/memory_backend.rs:55-59 | afterwards nothing is stored |
| ValueCodec.DecodeValue | src/list_builder.rs:90-92 | decoding succeeds exactly when bincode does; a failure is `ValDecodeError` |
| ValueCodec.EncodeValue | src/lib.rs:155-156 | encoding succeeds exactly when bincode does, with its bytes; a failure is `ValEncodeError` |
| ValueCodec.DecodeEncoded | src/lib.rs:155 | a value decodes from its own encoding |
| ValueCodec.EncodeInjective | src/lib.rs:155 | distinct values have distinct encodings |
| ListBuilder.KvListBuilder.constructor | src/list_builder.rs:24-31 | `new` starts with no selector |
| ListBuilder.KvListBuilder.Prefix | src/list_builder.rs:34-37 | sets the prefix and leaves start and end |
| ListBuilder.KvListBuilder.Start | src/list_builder.rs:40-43 | sets the start and leaves prefix and end |
| ListBuilder.KvListBuilder.End | src/list_builder.rs:46-49 | sets the end and leaves prefix and start |
| ListBuilder.SelectorMatch | src/list_builder.rs:71-83 | the selector table fails exactly when all three selectors are present, with `InvalidSelector` |
| ListBuilder.CatchAllOnlyForAllThree | src/list_builder.rs:62-82 | the early rejection and the catch-all arm agree, and reject exactly the all-three case |
| ListBuilder.ResolvedRangeIsSelection | src/list_builder.rs:71-83 | a key is in the resolved backend range exactly when it meets the selectors, reading prefix as a prefix filter |
| ListBuilder.StartWinsOverPrefix | src/list_builder.rs:78 | prefix and start resolve like start alone |
| ListBuilder.PrefixWithEndIsNotAFilter | src/list_builder.rs:79 | prefix and end give the range `[prefix, end)`, which can contain keys without the prefix |
| ListBuilder.PrefixBoundsAscend | src/list_builder.rs:72-75 | a prefix alone never yields reversed bounds |
| ListBuilder.ReversedSelectorsPanicAsWritten | src/list_builder.rs:79-80 | for every lower bound above the end, start + end and prefix + end pass the bounds through unchanged, the backend as written panics on them, and the contract's answer is empty |
| ListBuilder.DecodeAll | src/list_builder.rs:86-95 | the decode loop succeeds exactly when every value decodes, keeps keys and order, and fails with `ValDecodeError` |
| ListBuilder.DecodeAllFails | src/list_builder.rs:90-92 | one undecodable value aborts the whole listing |
| ListBuilder.ListSpec | src/list_builder.rs:56-96 | `entries`, over the corrected half-open range, fails with `InvalidSelector` exactly for all three selectors, and otherwise only with `ValDecodeError` |
| ListBuilder.ListedEntries | src/list_builder.rs:56-96 | over the corrected half-open range, a successful listing is strictly ascending, lists exactly the stored keys meeting the selectors, and gives each its decoded value |
| ListBuilder.ListFailsOnUndecodable | src/list_builder.rs:86-95 | a selected stored value that does not decode makes the listing fail |
| ListBuilder.PrefixListingScenario | src/list_builder.rs:72-75 | prefix (1u64,) selects every (1, i) key and no (2, j) key |
| ListBuilder.PairKeyOrder | src/list_builder.rs:86 | keys (x, a) and (x, b) with a, b of one sign come in the order of a and b |
| ListBuilder.RangeListingScenario | src/list_builder.rs:80 | start (99, 2) and end (99, 5) select (99, i) exactly for 2 ≤ i < 5 |
| ListBuilder.KvListBuilder.Entries | src/list_builder.rs:56-96 | `entries` returns what `ListSpec` computes over the backend's entries, through the corrected half-open range of `GetRange` |
| KvStore.GetSpec | src/lib.rs:123-134 | `get` fails only with `ValDecodeError` |
| KvStore.ScanIsExtensions | src/lib.rs:125 | the scanned range holds exactly the stored entries whose keys extend the requested key |
| KvStore.GetNoneIffNoExtension | src/lib.rs:126-127 | `get` returns `Ok(None)` exactly when no stored key extends the requested key |
| KvStore.GetFindsStoredKey | src/lib.rs:128-133 | for a stored key, `get` returns the decoding of its own value |
| KvStore.GetReturnsLongerKey | src/lib.rs:125-132 | with only key [1, 0] stored, `get([1])` returns that value though [1] is not stored |
| KvStore.SetThenGet | src/lib.rs:144-162 | after `set`, `get` on the same key returns the value |
| KvStore.SecondSetWins | src/lib.rs:154-157 | a second `set` on a key overwrites the first |
| KvStore.DeleteSpec | src/lib.rs:172-181 | a reported deletion names the requested key; an error or None leaves the store unchanged |
| KvStore.DeletePresent | src/lib.rs:172-181 | deleting a stored key returns it with its value and removes only it; if no other key extends it, a later `get` is None |
| KvStore.DeleteAbsent | src/lib.rs:174-180 | deleting a key nothing extends returns None and changes nothing |
| KvStore.DeleteOfLongerKey | src/lib.rs:172-181 | deleting [1] with only [1, 0] stored reports a deletion but leaves [1, 0] in place |
| KvStore.EntriesListsEverything | src/lib.rs:192-200 | `entries` is the selector-free listing, i.e. every stored entry decoded |
| KvStore.ClearedStoreListsNothing | src/backends/memory_backend.rs:55-59 | an empty store lists nothing |
| KvStore.Kv.constructor | src/lib.rs:108-113 | `new` wraps the given backend |
| KvStore.Kv.Get | src/lib.rs:123-134 | `get` returns what `GetSpec` computes over the backend |
| KvStore.Kv.SetOptional | src/lib.rs:148-162 | `Some(v)` stores v's encoding, or fails with `ValEncodeError` and changes nothing; `None` removes the key |
| KvStore.Kv.Set | src/lib.rs:144-146 | `set` is `set_optional` with `Some` |
| KvStore.Kv.Delete | src/lib.rs:172-181 | `delete` returns and leaves what `DeleteSpec` computes |
| KvStore.Kv.Entries | src/lib.rs:192-200 | `entries` returns the selector-free listing |
| KvStore.Kv.List | src/lib.rs:212-214 | `list` gives a fresh builder over the same backend with no selector |
| JsonTree.AsI64 | src/kv_value.rs:88 | `as_i64` succeeds exactly for numbers up to i64::MAX |
| JsonTree.AsU64 | src/kv_value.rs:90 | `as_u64` succeeds exactly for non-negative numbers |
| KvValues.TryUnit | src/kv_value.rs:174-185 | succeeds exactly on Null, otherwise `ValDowncastError` |
| KvValues.TryBool | src/kv_value.rs:187-198 | succeeds exactly on Bool and returns its payload, otherwise `ValDowncastError` |
| KvValues.TryI64 | src/kv_value.rs:200-211 | succeeds exactly on I64 and returns its payload, otherwise `ValDowncastError` |
| KvValues.TryU64 | src/kv_value.rs:213-224 | succeeds exactly on U64 and returns its payload, otherwise `ValDowncastError` |
| KvValues.TryString | src/kv_value.rs:239-250 | succeeds exactly on String and returns its payload, otherwise `ValDowncastError` |
| KvValues.TryArray | src/kv_value.rs:252-263 | succeeds exactly on Array and returns its items, otherwise `ValDowncastError` |
| KvValues.TryBinary | src/kv_value.rs:265-276 | succeeds exactly on Binary and returns its bytes, otherwise `ValDowncastError` |
| KvValues.DowncastsInvertFrom | src/kv_value.rs:22-80 | each `TryFrom` returns what the matching `From` wrapped |
| KvValues.ToJson | src/kv_value.rs:137-172 | arrays keep their length, objects their key set, and a blob becomes an object with exactly the flag and bytes keys |
| KvValues.CollectBytes | src/kv_value.rs:107-118 | the byte list is read exactly when every element is a number in 0..255 |
| KvValues.BinaryTag | src/kv_value.rs:102-121 | an object is read as a blob exactly when it has two entries, the flag true and a byte list |
| KvValues.FromJson | src/kv_value.rs:82-134 | arrays keep their length, and an object without the blob shape keeps its key set |
| KvValues.BinaryJsonShape | src/kv_value.rs:156-169 | a blob's JSON is the flag true plus the byte numbers |
| KvValues.BinaryRoundTrip | src/kv_value.rs:100-131 | every blob survives the JSON round trip |
| KvValues.TagShapedObjectBecomesBinary | src/kv_value.rs:102-121 | every user object of exactly the flag `true` and a `bytes` array of byte-valued I64 or U64 numbers comes back as `Binary` of those bytes |
| KvValues.SmallU64BecomesI64 | src/kv_value.rs:87-91 | a U64 up to i64::MAX comes back as I64 |
| KvValues.LargeU64RoundTrips | src/kv_value.rs:87-91 | a U64 above i64::MAX comes back as U64 |
| KvValues.JsonRoundTrip | src/kv_value.rs:82-172 | every value free of small U64s and blob-shaped objects survives the JSON round trip |
| LegacyKeys.KeyOrderIsTotal | src/keys/types.rs:5-6 | the derived key order is total, with equality by bytes |
| LegacyKeys.KeyLessTransitive | src/keys/types.rs:5-6 | the derived key order is transitive |
| LegacyKeys.PrefixKeyIsLess | src/keys/types.rs:5-6 | a proper prefix sorts before its extensions |
| LegacyEncode.UIntBytes | src/keys/encode.rs:21-26 | unsigned integers give tag 0x02 and 8 bytes whose big-endian value is the number |
| LegacyEncode.SIntBytes | src/keys/encode.rs:28-34 | signed integers give tag 0x03 and the 8 two's-complement bytes |
| LegacyEncode.StrBytes | src/keys/encode.rs:6-20 | strings give tag 0x01, the length truncated to a u32 as 4 big-endian bytes, and the bytes |
| LegacyEncode.PrimBytes | src/keys/encode.rs:6-84 | 9 bytes for integers, 2 for bool, 5 + len for strings |
| LegacyEncode.WideningKeepsBytes | src/keys/encode.rs:36-77 | narrow integers are zero- or sign-extended: they encode as the same value at 64 bits |
| LegacyEncode.MinusOneSignExtends | src/keys/encode.rs:36-42 | -1i8 encodes exactly as -1i64 |
| LegacyEncode.MaxU8ZeroExtends | src/keys/encode.rs:57-63 | 255u8 encodes with seven zero bytes before 0xFF |
| LegacyEncode.LongStringLengthWraps | src/keys/encode.rs:8-13 | a string of 2^32 bytes gets length field 0 |
| LegacyEncode.EncodeUIntInto | src/keys/encode.rs:21-26 | appends exactly the unsigned layout |
| LegacyEncode.EncodeSIntInto | src/keys/encode.rs:28-34 | appends exactly the signed layout |
| LegacyEncode.EncodeStrInto | src/keys/encode.rs:6-20 | appends exactly the string layout |
| LegacyEncode.EncodeKeyInto | src/keys/encode.rs:6-84 | `encode_key` of any primitive only appends its layout to `out` |
| LegacyDecode.DeclaredLength | src/keys/decode.rs:16 | the declared string length fits a u32 |
| LegacyDecode.ParseStr | src/keys/decode.rs:12-23 | a string is read exactly when tag 0x01, 4-byte length, that many bytes and UTF-8 are present |
| LegacyDecode.ParseU64 | src/keys/decode.rs:24-31 | a u64 is read exactly when 9 bytes start with tag 0x02 |
| LegacyDecode.ParseI64 | src/keys/decode.rs:32-39 | an i64 is read exactly when 9 bytes start with tag 0x03 |
| LegacyDecode.ParseBool | src/keys/decode.rs:40-51 | a bool is read exactly when tag 0x05 is followed by 0 or 1 |
| LegacyDecode.U64RoundTrip | src/keys/decode.rs:24-31 | `next_u64` reads back what `encode_key` wrote and leaves the rest |
| LegacyDecode.I64RoundTrip | src/keys/decode.rs:32-39 | `next_i64` reads back what `encode_key` wrote and leaves the rest |
| LegacyDecode.BoolRoundTrip | src/keys/decode.rs:40-51 | `next_bool` reads back what `encode_key` wrote and leaves the rest |
| LegacyDecode.StrRoundTrip | src/keys/decode.rs:12-23 | strings shorter than 2^32 bytes read back and leave the rest |
| LegacyDecode.LongStringReadsEmpty | src/keys/decode.rs:12-23 | a string of exactly 2^32 bytes reads back as the empty string |
| LegacyDecode.BoolRejectsOtherPayload | src/keys/decode.rs:44-50 | payloads other than 0 and 1 are rejected |
| LegacyDecode.Decoder.constructor | src/keys/decode.rs:9-11 | `new` puts the cursor at the start |
| LegacyDecode.Decoder.NextStr | src/keys/decode.rs:12-23 | returns what `ParseStr` reads, advancing `rem` only on success |
| LegacyDecode.Decoder.NextU64 | src/keys/decode.rs:24-31 | returns what `ParseU64` reads, advancing `rem` only on success |
| LegacyDecode.Decoder.NextI64 | src/keys/decode.rs:32-39 | returns what `ParseI64` reads, advancing `rem` only on success |
| LegacyDecode.Decoder.NextBool | src/keys/decode.rs:40-51 | returns what `ParseBool` reads, advancing `rem` only on success |
| LegacyEncoding.NarrowU | src/keys/encoding.rs:46-50 | `v as uN` keeps the low N bits |
| LegacyEncoding.NarrowS | src/keys/encoding.rs:46-50 | `v as iN` is the value in range congruent to v, and v itself when it fits |
| LegacyEncoding.FromSeg | src/keys/encoding.rs:44-51 | a decoded primitive has the requested type, and every failure is `UnexpectedEof` |
| LegacyEncoding.FromKey | src/keys/encoding.rs:180-186 | tuple `from_key` gives the requested types, or `UnexpectedEof` |
| LegacyEncoding.TupleBytesAppend | src/keys/encoding.rs:167-178 | the key of a concatenation of components is the concatenation of their keys |
| LegacyEncoding.KeyRefIsRaw | src/keys/encoding.rs:147-152 | a `&Key` component contributes its raw bytes |
| LegacyEncoding.FromSegRoundTrip | src/keys/encoding.rs:44-51 | decoding a primitive's bytes with its type gives it back and leaves the rest |
| LegacyEncoding.DecodeTupleRoundTrip | src/keys/encoding.rs:180-186 | decoding a tuple's bytes followed by any rest gives the tuple and leaves the rest |
| LegacyEncoding.FromKeyRoundTrip | src/keys/encoding.rs:167-186 | `from_key(into_key(t)) == t` for tuples of encodable primitives |
| LegacyEncoding.NarrowUnsignedTruncates | src/keys/encoding.rs:46-50 | a u64 segment holding 256 decodes as 0u8 without error |
| LegacyEncoding.NarrowSignedWraps | src/keys/encoding.rs:46-50 | an i64 segment holding 200 decodes as -56i8 |
| LegacyEncoding.MismatchedTypeFails | src/keys/encoding.rs:49 | a segment of another kind fails with `UnexpectedEof` |
| LegacyEncoding.EncodeComponentInto | src/keys/encoding.rs:147-152 | appends a primitive's layout or a key's raw bytes |
| LegacyEncoding.PrimIntoKey | src/keys/encoding.rs:29-35 | a primitive's `into_key` is its `encode_key` into an empty buffer |
| LegacyEncoding.TupleIntoKey | src/keys/encoding.rs:171-178 | a tuple's `into_key` concatenates its components' encodings in field order |
| LegacyEncoding.FromDecoder | src/keys/encoding.rs:44-51 | `from_decoder` returns what `FromSeg` reads and advances the shared cursor only on success |
| LegacyEncoding.TupleFromKey | src/keys/encoding.rs:180-186 | the shared-cursor tuple decoding agrees with `FromKey` |
| LegacyKeyTraits.IntoKeyIsFlat | src/keys/key_traits.rs:111-128 | the key of any nested value is the flat tuple key of its components in order |
| LegacyKeyTraits.NestedTupleFlattens | src/keys/key_traits.rs:113-121 | (a, (b, c)) and (a, b, c) give the same key |
| LegacyKeyTraits.KeyTupleIsKey | src/keys/key_traits.rs:100-109 | a one-tuple holding a `Key` gives that key's bytes |
| LegacyKeyTraits.IntoKey | src/keys/key_traits.rs:111-121 | tuple `into_key` extends one buffer with each component's key |
| LegacyListBuilder.New | src/utils/list_builder.rs:15-23 | `new` has no selector |
| LegacyListBuilder.Start | src/utils/list_builder.rs:25-28 | sets only the start |
| LegacyListBuilder.End | src/utils/list_builder.rs:30-33 | sets only the end |
| LegacyListBuilder.Prefix | src/utils/list_builder.rs:35-38 | sets only the prefix |
| LegacyListBuilder.InsertKey | src/utils/list_builder.rs:55 | insertion adds the key and nothing else |
| LegacyListBuilder.InsertKeyAscending | src/utils/list_builder.rs:55 | insertion keeps a key list strictly ascending |
| LegacyListBuilder.SortKeys | src/utils/list_builder.rs:55 | the sorted keys are ascending, as many as before, and the same keys |
| LegacyListBuilder.FilterKeys | src/utils/list_builder.rs:48-53 | keeps exactly the keys with the prefix, at or above start and at or below end |
| LegacyListBuilder.Iter | src/utils/list_builder.rs:40-66 | output is ascending and holds exactly the stored keys passing the filter whose values decode, with their decoded values |
| LegacyListBuilder.IterContractDeterminesOutput | src/utils/list_builder.rs:40-66 | only one output meets that description |
| LegacyListBuilder.EndIsInclusive | src/utils/list_builder.rs:50-51 | a stored key equal to the end bound is listed |
| LegacyListBuilder.UndecodableIsSkipped | src/utils/list_builder.rs:56-65 | a key whose value does not decode is silently left out |
| LegacyStorage.MemoryBackend.constructor | src/storages/memory_backend.rs:10-12 | `new` gives an empty map |
| LegacyStorage.MemoryBackend.Set | src/storages/memory_backend.rs:15-18 | stores the value and leaves every other key |
| LegacyStorage.MemoryBackend.Get | src/storages/memory_backend.rs:19-21 | returns the stored value, or None exactly when the key is absent |
| LegacyStorage.MemoryBackend.Delete | src/storages/memory_backend.rs:22-25 | removes only the key; an absent key changes nothing |
| LegacyStorage.MemoryBackend.Clear | src/storages/memory_backend.rs:26-29 | afterwards no key is stored |
| LegacyStorage.MemoryBackend.GetMany | src/storages/memory_backend.rs:30-41 | yields one stored value per stored key the request names, however often it is named |
| LegacyStorage.MemoryBackend.Keys | src/storages/memory_backend.rs:42-44 | yields every stored key exactly once |
| Utf8.AsciiIsValid | src/keys/display.rs:15 | ASCII text is valid UTF-8, so escaping byte-wise keeps strings well formed |

## Left out

- Concurrency: the `Arc<Mutex<..>>` around the `BTreeMap` is plumbing and is not modelled. The map is a plain field.
- The SQLite backends (src/backends/sqlite_backend.rs, src/storages/sqlite_backend.rs) run SQL in a foreign engine and are not modelled.
- bincode is a foreign library. `ValueCodec` models it as a pair of functions with a left-inverse property, `LeftInverse`. Only the decoded value of `decode_from_slice` is kept; the consumed count is dropped, as the source does.
- The JSON export and import functions of src/lib.rs:216-269 are serde_json string handling and are not modelled.
- `KvValue::F64`, `Number::from_f64` and `as_f64` are floating point and are not modelled. JSON numbers are integers in `JsonTree`.
- src/utils/kv_value.rs (reflection, serde and base64 wrappers), the benchmarks and src/tests.rs are not modelled. The tests' scenarios appear as lemmas.
- The `KvBackend` trait is not a Dafny trait. `Backend.RangeContract` states its documented contract, and `Kv` and `KvListBuilder` hold the concrete `MemoryBackend`. Backend errors therefore never occur in the model, so the `?` paths on backend results are not exercised.
- `KvKey` and `successor` are defined outside the files of this model. `KvKeys.Successor` defines `successor` concretely: the last byte that is not 0xFF is incremented and everything after it is dropped. The contract its callers need is proved about it.
- `IntoKey` conversion happens at the caller. `Kv` methods take the already-encoded key.
- Error message strings of src/kv_error.rs are not modelled, only its variants. `ValDowncastError` is used by src/kv_value.rs but is missing from the shown src/kv_error.rs, and the model adds it to `KvError`.
- UTF-8 validity is a predicate on bytes, not a decoder. Display escaping works on bytes, which matches the char-wise code because ':' and '\' are ASCII and never occur inside a multi-byte UTF-8 sequence.
- Display.RenderStep: strings are read with the corrected `9 + len` check. The same overflow at src/keys/display.rs:12 as at src/keys/key_decoder.rs:19 is shown only for `next_str`.
- Display.ToDisplayString: renders two inputs differently from the source, through `DisplayString`. For a one-segment key holding `i64::MIN` it gives "-9223372036854775808", where `-n` at src/keys/display.rs:51 panics with overflow checks and otherwise gives "--9223372036854775808" (the Finding below). For a string segment whose 8-byte length is above `usize::MAX - 9` it returns None, where `9 + len` at src/keys/display.rs:12 panics with overflow checks and otherwise wraps so that the slice at src/keys/display.rs:15 panics.
- ListBuilder.ListSpec: lists over the corrected half-open range, and so do ListBuilder.ListedEntries and ListBuilder.KvListBuilder.Entries; the source differs on two selector inputs. With `start(k)` and `end(k)`, or `prefix(k)` and `end(k)`, the closed range built at src/backends/memory_backend.rs:31-32 lists the entry stored at `k`, where the model lists nothing (MemoryBackends.ClosedRangeBreaksContract). With a start or prefix above the end, `BTreeMap::range` at src/backends/memory_backend.rs:34 panics, where the model lists nothing (ListBuilder.ReversedSelectorsPanicAsWritten). `get`, `delete` and the selector-free `entries` cannot reach either case, because `successor(k)` is always above `k`.
- Display.ParseDisplayString: `i64::from_str` and `u64::from_str` become checks on the digits. The source calls them only on all-digit text (after a leading '-' for negatives). On such text their only failures are empty input (the part "-") and overflow, and the predicates `ParsesAsU64`, `ParsesAsNonNegI64` and `ParsesAsNegI64` check both: non-empty digits, and the value in range.
- LegacyListBuilder.SortKeys: sorts a `seq` by insertion, not the Rust `Vec` in place, and requires the keys to be distinct, which `keys()` guarantees.
- LegacyListBuilder.Iter: `get` on the in-memory backend cannot fail, so the skipped-on-error path of src/utils/list_builder.rs:56-65 is reachable only through a missing key or a failed decode. The generic decoder `T` is a function parameter.
- The `FromKey` and `FromKeySeg` impls of src/keys/key_traits.rs are the same as those of src/keys/encoding.rs, and `LegacyEncoding.FromKey` stands for both.
- Tuple arities 1..9 (current keys, src/keys/key_segment.rs:68-76 and src/keys/key_decoder.rs:109-117, 138-146), 1..8 (src/keys/encoding.rs:189-196) and 1..16 (src/keys/key_traits.rs) are sequences of any length, so the model also covers the empty tuple and longer tuples.
- KvStore.GetSpec: the doc comments at src/lib.rs:115 and src/lib.rs:164 promise `Ok(None)` for a key that is not present. The code breaks that promise whenever a stored key extends the requested one: `get` then returns the longer key's value (KvStore.GetReturnsLongerKey), and `delete` reports a deletion and removes nothing (KvStore.DeleteOfLongerKey). The model keeps the code's behaviour. It proves the promise only when no stored key extends the requested key: KvStore.GetNoneIffNoExtension, KvStore.DeleteAbsent, and the conditional ensures of KvStore.DeletePresent.

## Findings

| source | as written | input that shows it | evidently intended | confidence | as-written member | corrected member |
|---|---|---|---|---|---|---|
| src/keys/key_decoder.rs:19 | `9 + len` in `usize` overflows for a declared length near 2^64, and panics in a debug build | tag 0x04 followed by eight 0xFF bytes | return `None` because the length exceeds the input | not executed | KeyDecoder.NextStrOverflowPanics | KeyDecoder.ParseStr |
| src/keys/display.rs:51 | `-n` overflows for i64::MIN: a panic with overflow checks, otherwise the text "--9223372036854775808" that reads back as a string | the key of the single segment i64::MIN | "-9223372036854775808", which reads back as i64::MIN | not executed | Display.WrappedMinimumReadsAsString | Display.MinimumRoundTrips |
| src/backends/memory_backend.rs:31-32 | start == end becomes the closed range `[k, k]` and returns the entry at k | a store holding key k, queried with start k and end k | the empty half-open range of src/backends/mod.rs:13 | not executed | MemoryBackends.ClosedRangeBreaksContract | MemoryBackends.EqualBoundsEmpty |
| src/backends/memory_backend.rs:34 | `BTreeMap::range` panics when start > end, and the selector table passes such bounds through for start + end and prefix + end | any start (or prefix) above the end, e.g. start [2] and end [1] | an empty result | not executed | ListBuilder.ReversedSelectorsPanicAsWritten | MemoryBackends.MemoryBackend.GetRange |
