# A verified model of the OFZL u32 compressor

OFZL turns a sequence of `u32` values into a frame of chunks. Each chunk is a small decode
program: stored byte streams, and transform records the decoder runs in order to rebuild the
chunk. This project models the whole path in both directions and proves that it loses nothing,
that the reader's local checks imply what the format is meant to guarantee, and that bytes and
programs determine each other.

The main results:

- **End to end.** `EndToEnd.RoundTrip`: for every sequence, every way the encoder's heuristics
  might choose, and every zstd that keeps its contract, decompressing what was compressed gives
  the sequence back. `EndToEnd.AnyPartitionRoundTrips` says so for every cut into chunks, and
  `EndToEnd.CompressU32` and `Frame.DecompressU32` are the loops that do it.
- **FieldLZ.** `FieldLzDecoder.DecodeSideStreams` (four cursors, three repeated offsets,
  overlapping copies) computes `FieldLz.Meaning`, and `FieldLz.MeaningIsRun` says that a
  quintuple of streams means a chunk exactly when it is the printed form of a command list that
  runs to it. `FieldLzEncoder.StepKeeps` is the match-table invariant, through sparse seeding;
  `FieldLzRoundTrip.EncodeDecode` is the round trip.
- **The chunk machine.** `ChunkDecoder.DecodeChunkEncoding` reads, checks and runs records at the
  same time over a mutable slot table; it accepts what parsing first and running afterwards
  accepts. From its one-slot-at-a-time checks follow the shape of every accepted program, its
  liveness, its exact counts and its typing (`ChunkFacts`). `ChunkMeaning.AcceptedExactlyWhen` goes
  both ways: a program is accepted exactly when its graph is legal and the equations between its
  slots have a solution, which is then unique; so the order of its records is free
  (`ChunkMeaning.OrderIsFree`).
- **The planner.** Under every policy the planned graph is printable and accepted, and hands
  FieldLZ the five side streams (`PlannerSound`).
- **The wire.** Varints, chunks and whole frames are each characterised by an if-and-only-if
  between bytes and what they say (`Varint.VarintBijection`, `ChunkFormat.ProgramRoundTrip`,
  `Frame.FrameIsPrograms`), and tied to actual numbers: `FrameBytes` gives whole frames byte by byte
  and every kind of record, `Routes` every literal route id by id.
- **The transforms.** `TransformFacts` says of each transform exactly when it accepts its inputs and
  what it then returns, without reference to the decoders that compute it.

## How it is laid out

| module | repository file |
|---|---|
| `Basics` | named constants, fixed-width integers, little-endian packing |
| `Varint` | `src/varint.rs` |
| `FieldLz`, `FieldLzDecoder`, `FieldLzEncoder`, `FieldLzRoundTrip`, `FieldLzGreedy` | `src/field_lz.rs` |
| `Delta`, `Transpose`, `LiteralDict`, `ZstdCodec` | the file of that name |
| `ChunkFormat`, `ChunkMachine`, `ChunkDecoder`, `TransformFacts`, `ChunkFacts`, `ChunkMeaning` | the reader's half of `src/frame.rs` |
| `Planner`, `Routes`, `PlannerSound`, `ChunkEncoder` | the writer's half of `src/frame.rs`, and the routes of `src/literal_dict.rs` |
| `Frame`, `EndToEnd`, `FrameBytes` | chunking, frame header, compress and decompress in `src/frame.rs` |

Code that changes state step by step is a method or a class (`Varint.Reader`,
`FieldLzEncoder.MatchHashTable`, the slot array, every loop), proved equal to a function of its
inputs; what that function means is proved in the lemmas beside it. Integers are unbounded except
where a width matters: `u32`, `u16` and `u8` are subset types, so every narrowing has to be proved
lossless or is written as a remainder, and wrapping arithmetic is written out.

zstd is a value of type `ZstdCodec.Codec`, three functions about which only `ZstdCodec.Contract` is
known. The encoder's heuristics are a value of type `Planner.Policy`, five arbitrary predicates on
what the source's heuristics look at.

Where the repository's text and code differ, the model follows the code: `docs/compressor.md`
describes building a raw and a delta candidate and keeping the smaller, and a transposed candidate
kept only if smaller, at level 6; the code picks one route by heuristics and writes only that, at
level 2. A comment at `src/literal_dict.rs:27-29` calls two-byte codes a future route; the code
already writes them. A comment at `src/field_lz.rs:51-53` says two adjacent values are hashed; the
bucket depends on the second alone (`FieldLzGreedy.HashDropsFirst`), since the table index is the
low bits of a product in which the first value is shifted out of reach. So the repetition in
`a b a b` is missed when `a` and `b` agree modulo 4096 (`FieldLzGreedy.RepeatedPair`); nothing but
compression is lost.

## Model

| member | source | states |
|---|---|---|
| EndToEnd.RoundTrip | src/frame.rs:36-57 | decompress(compress(x)) = x, for every input, policy and zstd within contract |
| EndToEnd.AnyPartitionRoundTrips | src/frame.rs:49-54 | the same for any cut of the input into non-empty chunks of legal size |
| EndToEnd.CompressU32 | src/frame.rs:36-57 | the compressing loop never fails, writes the frame of the chosen ranges, and what it writes decompresses to the input |
| EndToEnd.ChunkRoundTrip | src/frame.rs:166-249 | a written chunk reads back as itself and leaves any bytes after it unread |
| EndToEnd.ChunkPlanRuns | src/frame.rs:166-213 | the program of a chunk fits the wire and runs to the chunk, for literals alone, deltas and plain values |
| EndToEnd.ChunkStreamsOk | src/frame.rs:776-787 | every side stream of every route is within zstd's size and divisibility guards |
| EndToEnd.EmptyFrame | src/frame.rs:1088-1096 | the frame of no values is exactly the ten bytes of the format's vector |
| FrameBytes.OneValueFrame | src/frame.rs:36-57 | the frame of one value, byte by byte, for every value and every policy, with and without the delta record |
| FrameBytes.RunFrame | src/frame.rs:36-57 | the frame of 3 to 127 equal values parsed as they are, byte by byte, extra match length included |
| FrameBytes.StreamsOfAChunk | src/frame.rs:174-205 | literals alone, the parse of the deltas, or the parse of the values: which of the three each policy hands to FieldLZ |
| FrameBytes.RunIsParsed | src/frame.rs:192-205 | when neither choice is made a run of equal values, however long, is one literal and one match in the streams |
| FrameBytes.StrideIsParsed | src/frame.rs:970-973 | under delta, values rising by their own first value are a run of deltas, one literal and one match, wrap-around included |
| FrameBytes.ZstdRecord | src/constants.rs:12 | a zstd record in bytes: 22, input, output, element width |
| FrameBytes.FieldLzRecord | src/constants.rs:13 | a FieldLZ record in bytes: 24, five inputs, output, the chunk's length |
| FrameBytes.DeltaRecord | src/constants.rs:11 | a delta record in bytes: 1, input, output, no header |
| FrameBytes.Split4Record | src/constants.rs:14 | a lane-joining record in bytes: 31, four lanes, output, no header |
| FrameBytes.DictRecord | src/constants.rs:15 | a dictionary record in bytes: 1001 in two bytes, table, codes, output, code width |
| FrameBytes.ShortChunk | src/frame.rs:223-248 | the bytes of any chunk whose five streams are short: header, five stored streams, records |
| Routes.ShortPlan | src/frame.rs:634-699 | the whole program of five short streams, id by id |
| Routes.OneByteDictTaken | src/frame.rs:705-712 | when the one-byte dictionary can be built and is chosen: table and zstd-coded codes stored, records 22 and 1001 with width 1 |
| Routes.TwoByteDictTaken | src/frame.rs:713-720 | otherwise, when the two-byte one can be built and is chosen: the same with width 2 |
| Routes.Split4Taken | src/frame.rs:722-724 | otherwise, on a splittable stream when chosen: four lanes through zstd and record 31 joining them in order |
| Routes.RawTaken | src/frame.rs:725-726 | otherwise one stored stream, and a zstd record exactly when it has ten bytes or more |
| Routes.ZstdRoute | src/frame.rs:789-819 | a raw route of ten bytes or more stores the zstd payload and adds one record 22 with the element width |
| Routes.TinyRoute | src/frame.rs:776-804 | a shorter one stores the bytes and adds no record |
| Frame.DecompressU32 | src/frame.rs:111-164 | the decompressing method accepts what the frame's specification accepts, with the same values, and nothing else |
| Frame.DecompressBody | src/frame.rs:139-163 | the chunk loop with its running total and its early exit equals decoding all chunks and checking the count and the end |
| Frame.ReadFrameHeader | src/frame.rs:112-132 | the field-by-field header reader equals the header parser |
| Frame.FrameHeaderRoundTrip | src/frame.rs:41-47 | a header parses to its two counts, leaving a given rest, exactly when the bytes are its printed form followed by that rest |
| Frame.FrameIsPrograms | src/frame.rs:111-164 | a byte string decompresses to given values exactly when it is the printed form of programs that run to them |
| Frame.FramesArePrefixFree | src/frame.rs:159-161 | no accepted frame is the beginning of another accepted frame |
| Frame.AcceptedFrameCounts | src/frame.rs:131-161 | an accepted frame yields the declared number of values, at least one and at most a full chunk's worth for each chunk |
| Frame.ChooseChunkRanges | src/frame.rs:59-85 | the loop computes the ranges of the specification |
| Frame.RangesTile | src/frame.rs:59-85 | the ranges are non-empty, contiguous, cover the input, and none is larger than a chunk may be |
| Frame.RangesShape | src/frame.rs:65-82 | at most one range is an adaptive cut; before it ranges are full windows, after it all but the last have the refined size |
| Frame.ChooseAdaptiveChunkEnd | src/frame.rs:87-109 | the scan finds the cut the specification names |
| Frame.AdaptiveEndIsBoundary | src/frame.rs:98-102 | a cut is the longest prefix with at most 256 distinct values, has exactly 256, is followed by a new value, and both minimum sizes hold |
| Frame.AdaptiveEndExactlyWhen | src/frame.rs:93-108 | a window is cut at j exactly when 256 distinct values come before a new one at j, with at least 16640 values before it and 16384 from it on |
| Varint.VarintBijection | src/varint.rs:12-18 | bytes parse to v and a rest exactly when v is a u64 and they are v's encoding followed by that rest |
| Varint.PrefixFree | src/varint.rs:12-18 | an encoding that begins another is that encoding |
| Varint.LebLength | src/varint.rs:12-18 | an encoding of k bytes encodes a value in [128^(k-1), 128^k): it is as short as can be |
| Varint.LebDigits | src/varint.rs:12-18 | the encoding is the value in base 128, low digit first, top bit set on every byte but the last |
| Varint.SingleExactlyWhen | src/varint.rs:30-37 | a header reads as a number exactly when it is that number's encoding |
| Varint.U64TakesAtMostTenBytes | src/varint.rs:8-18 | one to ten bytes for every u64 |
| Varint.WriteU64 | src/varint.rs:12-18 | the shifting loop appends the encoding |
| Varint.Reader.ReadU64 | src/varint.rs:70-94 | the accumulating loop accepts exactly the canonical encodings, returns their value, and stops right after them |
| Varint.Reader.ReadExact | src/varint.rs:60-68 | returns the next len bytes and moves past them, or fails and does not move |
| Varint.Reader.ReadU8 | src/varint.rs:54-58 | returns the next byte and moves past it, or fails and does not move |
| Varint.ReadSingle | src/varint.rs:30-37 | a header is accepted exactly when it is one number with nothing after it |
| Varint.SingleInverse | src/varint.rs:24-37 | a header holding an encoded number reads back as that number |
| FieldLz.MeaningIsRun | src/field_lz.rs:143-290 | streams decode to given values exactly when they are the printed form of commands that run to those values with all five streams used up |
| FieldLz.StreamsAreCommands | src/field_lz.rs:150-225 | tokens, offsets and extras resolve to a command list and are used up exactly when they are its printed form |
| FieldLz.EmittedSnoc | src/field_lz.rs:308-335 | one more command appends its token, its offset and its extras at the end of each stream and changes nothing before |
| FieldLz.CopyIsPeriodic | src/field_lz.rs:249-252 | a match is the one sequence of its length in which every new value equals the one `offset` places back, overlapping or not |
| FieldLz.MoveToFront | src/field_lz.rs:161-192 | codes 0 to 2 take the offset of that number to the front and keep the others in order; code 3 puts its own in front and forgets the oldest |
| FieldLz.OneTokenMeans | src/field_lz.rs:147-252 | what one token over any literals decodes to: a copy from 1, 2 or 4 back, or from its own offset, with both extra lengths; an error when that is nowhere |
| FieldLz.DecodedExamples | src/field_lz.rs:147-252 | decoded values for each of the four offset codes |
| FieldLz.RepeatsStayNonZero | src/field_lz.rs:147-191 | all three repeated offsets are non-zero after any commands that run |
| FieldLz.RunLength | src/field_lz.rs:227-253 | output length is literals consumed plus match lengths, and every token yields at least one value |
| FieldLz.MeaningBoundsStreams | src/field_lz.rs:107-135 | streams that mean anything pass the decoder's size checks, so those checks reject nothing else |
| FieldLzDecoder.DecodeSideStreams | src/field_lz.rs:89-291 | the decoder accepts exactly the streams that have a meaning and returns its little-endian bytes |
| FieldLzDecoder.DecodeValues | src/field_lz.rs:143-288 | the token loop with its early exits equals resolving all tokens, running all commands, and checking every stream is used up |
| FieldLzDecoder.ReadToken | src/field_lz.rs:151-225 | one token's fields, offset and extra lengths, with every underflow and the reserved bits rejected |
| FieldLzDecoder.SelectOffset | src/field_lz.rs:161-192 | the offset a code selects and the move-to-front of the repeated offsets |
| FieldLzDecoder.Apply | src/field_lz.rs:227-252 | one command's literals, checks and copy; it fails only where the whole decoding fails |
| FieldLzDecoder.ExtendByMatch | src/field_lz.rs:249-252 | the copy loop computes the periodic extension |
| FieldLzDecoder.Finish | src/field_lz.rs:255-288 | trailing literals and the four exact-consumption checks |
| FieldLzEncoder.EncodeU32ToSideStreams | src/field_lz.rs:40-83 | an oversized chunk is an error; any other chunk gives the streams of its greedy parse, and no error branch is ever taken |
| FieldLzEncoder.Turn | src/field_lz.rs:50-79 | one turn of the loop is one step of the parser on position, anchor, table and streams |
| FieldLzEncoder.LookUp | src/field_lz.rs:54-63 | looks the next pair up, remembers the current position, and offers the match that passes the guards |
| FieldLzEncoder.AppendMatchSequence | src/field_lz.rs:293-337 | appends token, offset and extras of one command, and errs exactly on a zero or too large offset, an empty match, or a length whose extra needs more than 32 bits |
| FieldLzEncoder.SeedHashTableAfterMatch | src/field_lz.rs:339-372 | the two seeding loops update the table as specified |
| FieldLzEncoder.CountMatchLen | src/field_lz.rs:374-380 | counts how far the input agrees with itself |
| FieldLzEncoder.MatchLengthIsMaximal | src/field_lz.rs:374-380 | every counted value agrees, and the next one, if there is one, does not |
| FieldLzEncoder.StepKeeps | src/field_lz.rs:50-79 | a step keeps the invariant: every entry is an earlier position whose pair hashes to its bucket, and the commands so far are genuine matches covering the input up to the anchor |
| FieldLzEncoder.ParseKeeps | src/field_lz.rs:50-79 | the invariant holds to the end of the run |
| FieldLzEncoder.SeedKeeps | src/field_lz.rs:339-372 | seeding keeps every entry an earlier position in the right bucket |
| FieldLzEncoder.GuardsNeverReject | src/field_lz.rs:59-61 | the candidate and offset guards never turn down a non-empty entry |
| FieldLzEncoder.CommandsDescribe | src/field_lz.rs:63-72 | every emitted match has an explicit legal offset, at least two equal values, and is maximal |
| FieldLzEncoder.TableSizeIsPowerOfTwo | src/field_lz.rs:426-433 | the table size is a power of two, so masking is reduction modulo it |
| FieldLzEncoder.MatchHashTable.constructor | src/field_lz.rs:443-448 | a new table is empty |
| FieldLzEncoder.MatchHashTable.Set | src/field_lz.rs:458-460 | one entry changes, the rest do not |
| FieldLzRoundTrip.EncodeDecode | src/field_lz.rs:34-83 | decoding a chunk's own streams with its length gives back its bytes, for every chunk of legal size |
| FieldLzRoundTrip.DecodesExactlyWhen | src/field_lz.rs:89-291 | five byte streams decode to given bytes exactly when they are the packed, printed form of commands that run to the chunk |
| FieldLzRoundTrip.DescriptionMeansInput | src/field_lz.rs:143-290 | any list of genuine matches covering a prefix, printed to streams, means the chunk |
| FieldLzRoundTrip.RunRebuilds | src/field_lz.rs:227-253 | running a description rebuilds the input match by match |
| FieldLzRoundTrip.LiteralOnlyDecodes | src/frame.rs:207-213 | a chunk stored as literals alone decodes to itself |
| FieldLzRoundTrip.EncoderConserves | src/field_lz.rs:50-82 | literals plus match lengths are the chunk; twice the tokens are at most the chunk; offsets and tokens are as many; one extra for each code of 15 |
| FieldLzGreedy.MatchTakenExactlyWhen | src/field_lz.rs:54-74 | a match is taken exactly when the bucket's entry is an occurrence of the next two values, with that distance and the greatest length |
| FieldLzGreedy.SeedingKeepsLatest | src/field_lz.rs:350-371 | after seeding every bucket holds the latest seeded position that falls into it, or what it held before |
| FieldLzGreedy.StepRemembers | src/field_lz.rs:50-79 | where one turn moves to and what it adds; every bucket then holds the latest position looked up or seeded in the turn, or what it held before |
| FieldLzGreedy.TableSizeFits | src/field_lz.rs:426-428 | the table has 4096 to 1048576 entries, in between at least one and fewer than two for each value |
| FieldLzGreedy.HashDropsFirst | src/field_lz.rs:430-434 | the first value of a pair has no influence on the bucket, which is that of the second times the multiplier's low half |
| FieldLzGreedy.RepeatedPair | src/field_lz.rs:475-483 | the repetition in a b a b is found exactly when a and b differ modulo 4096 |
| FieldLzGreedy.RunIsOneMatch | src/field_lz.rs:50-82 | a run of equal values becomes one literal and one match at distance one |
| FieldLzGreedy.RunStreams | src/field_lz.rs:485-493 | the five streams of such a run, for every value and length |
| Delta.AccumulateDeltas | src/delta.rs:10-34 | accumulating deltas gives the values back, through wrap-around |
| Delta.DeltasAccumulate | src/delta.rs:10-34 | taking deltas of accumulated values gives the deltas back |
| Delta.AccumulateIsPrefixSum | src/delta.rs:26-32 | each decoded value is the sum of the deltas up to it, modulo 2^32 |
| Delta.DecodesExactlyWhen | src/delta.rs:20-34 | decoding accepts whole values, and returns exactly the bytes whose values are the prefix sums modulo 2^32 |
| Delta.EncodeU32Deltas | src/delta.rs:10-18 | the loop computes the deltas |
| Delta.DecodeU32DeltaBytes | src/delta.rs:20-34 | a ragged stream is refused; any other gives the bytes of its running sums |
| Delta.DecodeInvertsEncode | src/delta.rs:10-34 | the bytes of the deltas decode to the bytes of the values |
| Transpose.LaneIndex | src/transpose.rs:72-76 | byte 4i+j of the stream is byte i of lane j |
| Transpose.JoinSplit | src/transpose.rs:67-105 | joining the lanes of a stream of whole values gives the stream back |
| Transpose.SplitJoin | src/transpose.rs:67-105 | splitting joined lanes of one length gives the lanes back |
| Transpose.DecodesExactlyWhen | src/transpose.rs:80-105 | decoding accepts lanes of one length within the chunk, and returns exactly the bytes that interleave them in order |
| Transpose.EncodeSplit4 | src/transpose.rs:67-78 | the loop computes the four lanes |
| Transpose.DecodeSplit4 | src/transpose.rs:80-105 | unequal or over-long lanes are refused; others are joined |
| LiteralDict.BuildCandidate | src/literal_dict.rs:128-176 | the loop over map, table and codes builds the candidate of the specification, or none |
| LiteralDict.BuiltDecodes | src/literal_dict.rs:103-236 | whatever candidate is built decodes to the bytes it was built from |
| LiteralDict.BuiltTable | src/literal_dict.rs:144-169 | a candidate's table holds the stream's values, each before those that first occur later |
| LiteralDict.DecodesExactlyWhen | src/literal_dict.rs:187-236 | decoding accepts whole streams with every code in the table, and returns for each code the four bytes of its entry |
| LiteralDict.U8BuildsExactlyWhen | src/literal_dict.rs:103-113 | the one-byte form builds exactly when the length is at least 256 and divisible by 4, and distinct values are at most 256 and fewer than elements |
| LiteralDict.U16BuildsExactlyWhen | src/literal_dict.rs:116-126 | the same with 65536, and exactly when the first 49151 values hold fewer than 32768 distinct ones |
| LiteralDict.DistinctNoDuplicates | src/literal_dict.rs:146-159 | no value is in the table twice |
| LiteralDict.DistinctPrefix | src/literal_dict.rs:146-159 | the table of a prefix is a prefix of the table: entries are in order of first occurrence |
| LiteralDict.ReadWrittenCodes | src/literal_dict.rs:109-125 | narrowing indexes to codes is lossless while they are below the code's range |
| LiteralDict.IndexesExpand | src/literal_dict.rs:223-233 | looking the indexes up gives the values back |
| LiteralDict.Decode | src/literal_dict.rs:187-236 | width, length, empty-table and range checks, then the looked-up values |
| ZstdCodec.DecodeInvertsEncode | src/zstd_codec.rs:15-72 | within the guards, decoding what was encoded gives it back |
| ZstdCodec.DecodeMagicless | src/zstd_codec.rs:31-72 | accepted output is within the chunk limit and a whole number of elements of a non-zero width |
| ZstdCodec.DecodesExactlyWhen | src/zstd_codec.rs:31-72 | accepted exactly when non-empty, of the declared size, within 16 MiB, and whole elements of a non-zero width |
| ZstdCodec.ContractCanBeMet | src/zstd_codec.rs:1-6 | some codec meets the contract, so the theorems that assume it are not empty |
| ChunkFormat.ProgramRoundTrip | src/frame.rs:223-306 | bytes parse to a program and a rest exactly when the program fits the wire and they are its printed form followed by that rest |
| ChunkFormat.TransformRoundTrip | src/frame.rs:371-410 | the same for one record |
| ChunkFormat.StoredRoundTrip | src/frame.rs:230-234 | the same for one stored stream |
| ChunkFormat.HeaderRoundTrip | src/frame.rs:224-228 | the same for the chunk header |
| ChunkFormat.ManyInverse | src/frame.rs:230-247 | a counted list round-trips when its items do |
| ChunkDecoder.DecodeChunkEncoding | src/frame.rs:251-363 | reading and running at once accepts what parsing and then running accepts, with the same values and the same bytes left over |
| ChunkDecoder.ReadAndExecute | src/frame.rs:365-455 | one record read, checked, run and logged equals parsing it and stepping the machine |
| ChunkDecoder.ReadInputs | src/frame.rs:372-386 | input ids checked as they are read: accepted exactly when few enough, in range and defined |
| ChunkDecoder.ReadOutputs | src/frame.rs:388-405 | output ids checked as they are read: accepted exactly when few enough, in range, undefined and distinct |
| ChunkDecoder.ReadAllStored | src/frame.rs:283-296 | the stored-stream loop equals parsing all and storing all |
| ChunkDecoder.RunAllRecords | src/frame.rs:298-306 | the record loop equals parsing all and running all, and its log is the log of the records |
| ChunkDecoder.ExecuteTransform | src/frame.rs:419-445 | dispatch to the five transforms, others refused |
| TransformFacts.ZstdExactlyWhen | src/frame.rs:457-479 | when a record 22 is accepted and what it returns: arity, a header that is the output width, the zstd guards |
| TransformFacts.FieldLzExactlyWhen | src/frame.rs:590-632 | when a record 24 is accepted and what it returns: recorded widths 4, 2, 4, 4, 4, a header that is the chunk's length, streams that code the output |
| TransformFacts.FieldLzInputOrder | src/field_lz.rs:22-32 | which input is which stream |
| TransformFacts.Split4ExactlyWhen | src/frame.rs:430-437 | when a record 31 is accepted and what it returns: no header, four inputs of width 1, the lanes interleaved |
| TransformFacts.DeltaExactlyWhen | src/frame.rs:560-588 | when a record 1 is accepted and what it returns: no header, one input of width 4, its prefix sums |
| TransformFacts.DictExactlyWhen | src/frame.rs:512-558 | when a record 1001 is accepted and what it returns: code width 1 or 2 in the header, a table of width 4, codes of that width, the looked-up values |
| TransformFacts.OthersRefused | src/frame.rs:444-445 | any other record id is refused |
| TransformFacts.HeaderLimits | src/frame.rs:256-279 | the chunk header's limits in numbers |
| ChunkDecoder.RunFieldLz | src/frame.rs:590-632 | arity, declared length and width checks, then the FieldLZ decoder |
| ChunkDecoder.RunSplit4 | src/frame.rs:481-510 | header, arity and width checks, then the lanes joined |
| ChunkDecoder.RunDelta | src/frame.rs:560-588 | arity, header and width checks, then the running sums |
| ChunkDecoder.RunDict | src/frame.rs:512-558 | arity, code width and element width checks, then the lookup |
| ChunkDecoder.CheckConsumed | src/frame.rs:340-349 | the closing scan accepts exactly when every slot is defined and every slot but the final one used |
| ChunkFacts.AcceptedIsComplete | src/frame.rs:340-349 | an accepted program writes every slot exactly once, reads only what was written before, and reads every slot but the final one |
| ChunkFacts.AcceptedShape | src/frame.rs:316-349 | the last record writes the final stream and is FieldLZ, or a delta reading the FieldLZ record just before it; the final stream is never read |
| ChunkFacts.EverySlotReachesFinal | src/frame.rs:382-414 | every slot leads to the final stream through records of increasing number: the graph is acyclic and all of it is needed |
| ChunkFacts.AcceptedCounts | src/frame.rs:340-349 | stored streams plus records are exactly the declared slots |
| ChunkFacts.AcceptedLength | src/frame.rs:356-362 | an accepted chunk yields the declared number of values, from one to a full chunk |
| ChunkFacts.SlotsStayTyped | src/frame.rs:447-453 | in every state of an accepted run a slot with a recorded width holds a whole number of elements |
| ChunkFacts.ExecuteTyped | src/frame.rs:457-632 | each of the five transforms returns a whole number of elements of the non-zero width it records |
| ChunkFacts.RunTracks | src/frame.rs:299-306 | after any accepted records: defined slots are the stored ones and the outputs so far, used slots the inputs so far |
| ChunkMeaning.AcceptedExactlyWhen | src/frame.rs:251-363 | a program yields given values exactly when its graph is legal and the equations between its slots have a solution with those values in the final slot |
| ChunkMeaning.SolutionIsUnique | src/frame.rs:365-455 | the equations of a complete, well-ordered graph have at most one solution |
| ChunkMeaning.OrderIsFree | src/frame.rs:252-255 | any order of an accepted program's records that writes each slot before it is read is accepted with the same values |
| ChunkMeaning.FinalChecks | src/frame.rs:316-338 | the log-based check of the final producer says: one FieldLZ record, and the final stream is its output or that of a delta reading it |
| PlannerSound.RawPlanRuns | src/frame.rs:634-699 | without the delta step, the planned graph is accepted and yields what the side streams decode to, under every policy |
| PlannerSound.DeltaPlanRuns | src/frame.rs:676-691 | with it, the running sums of what they decode to |
| PlannerSound.PlanFits | src/frame.rs:693-698 | the planned program passes the header limits and fits its 64-bit fields |
| PlannerSound.InputsDeliver | src/frame.rs:645-665 | the five routes load and run to a table that holds exactly the five side streams, unread, with everything else read |
| PlannerSound.LiteralRuns | src/frame.rs:701-726 | each literal route delivers the literal stream |
| PlannerSound.DictRuns | src/literal_dict.rs:42-96 | the dictionary route delivers the bytes its candidate was built from |
| PlannerSound.Split4Runs | src/frame.rs:821-855 | the transposed route delivers the bytes it was given |
| PlannerSound.RawRouteRuns | src/frame.rs:789-819 | the raw route delivers the bytes it was given, stored or through zstd |
| PlannerSound.FieldLzExecutes | src/frame.rs:590-632 | on the delivered slots the FieldLZ record passes its arity, length and width checks |
| PlannerSound.RunLocal | src/frame.rs:652-665 | records do the same over a segment of the slot table wherever it lies in a larger one |
| ChunkEncoder.EncodeChunk | src/frame.rs:166-213 | one of the three encodings, as the policy says, planned |
| ChunkEncoder.BuildGraph | src/frame.rs:634-699 | the id-handing builder yields the planned program |
| ChunkEncoder.EncodeLiteralRoute | src/frame.rs:701-726 | the first route that applies and is chosen: one-byte codes, two-byte codes, lanes, raw |
| ChunkEncoder.BuildDictRoute | src/literal_dict.rs:42-96 | ids, records and stored streams of the dictionary route |
| ChunkEncoder.BuildTransposedRoute | src/frame.rs:821-855 | ids, records and stored streams of the transposed route |
| ChunkEncoder.EncodeRawSideStreamRoute | src/frame.rs:776-819 | ids, records and stored streams of the raw route |
| ChunkEncoder.Serialize | src/frame.rs:223-248 | the writing loops print the program |
| Basics.AppendU32s | src/field_lz.rs:382-387 | appends the little-endian bytes of the values |
| Basics.ReadU32s | src/field_lz.rs:396-401 | reads whole little-endian words |
| Basics.ReadU16s | src/field_lz.rs:389-394 | reads whole little-endian half words |
| Basics.UnpackPack32 | src/field_lz.rs:403-416 | unpacking packed words gives them back |
| Basics.LowByteFirst | src/field_lz.rs:422-424 | a packed value is its four bytes in base 256, low byte first |
| Basics.LowByteFirst16 | src/field_lz.rs:418-420 | the same for the two bytes of a token |
| Basics.PackUnpack32 | src/field_lz.rs:403-416 | packing the words of a stream of whole words gives the stream back |

## Left out

- The zstd library and the unsafe read of its frame header (`src/zstd_codec.rs:15-29`, `74-102`): foreign code, a parameter with a contract.
- EndToEnd.CompressU32: requires the zstd contract, so the error return of a failing zstd encoder is not modelled; no other error branch of compression can be reached, which is proved.
- ZstdCodec.Contract: adds to the source's guards that an encoded payload is shorter than 2^64 bytes, as any buffer is.
- Whether a heuristic pays (`Ratio`, `ChunkValueAnalysis`, delta sampling, the split4 statistics, the dictionary size gate): free choices of a policy, so that nothing depends on them; only the length and divisibility guard in front of split4 is kept.
- Error kinds and messages, and which of several errors is reported: a result is accepted or refused.
- Word size: `usize` is taken to be 64 bits, and inputs shorter than 2^64 values, as any slice is.
- Varint.Reader.ReadExact: `pos + len` is a mathematical integer; where the source's sum would wrap, its range lookup fails too, and a build that checks overflow would stop instead.
- Varint.Reader.ReadU64: the position after a failed read is not stated, because every caller gives up.
- LiteralDict.Decode: the overflow check on the output's capacity (`src/literal_dict.rs:218-221`) is not modelled, since it takes a code stream of at least 2^62 bytes; likewise the sums of 64-bit counts at `src/frame.rs:143-145` and `src/field_lz.rs:203-229`, which cannot wrap.
- FieldLzEncoder.TableSizeIsPowerOfTwo: masks, shifts and disjoint `or`s are written as remainders, products and sums; this lemma is what makes the table mask a remainder.
- `MatchHashTable::mask` and the entries' `u32` casts: the table length and subset types take their place.
- `Vec` capacities, allocation failure, and `FxHashMap` and `HashSet` internals: sequences, a map and a set.
- The slot table and the match table are arrays updated in place; byte buffers, streams and plans that only grow are sequences in a variable, so aliasing between output buffers is not captured.
- `debug_assert!`s: proved where they follow from the model, not modelled as run-time checks.
- Compression ratio: what is proved of the hash is which bucket it names, not how well it spreads.
- Benchmarks, dataset loading, test data, and the features that `plan.md` and `docs/compressor.md` only plan.
