/** What ends up on the wire: what each policy hands to FieldLZ, the printed form of every kind of
    record, and whole frames byte by byte. */
module FrameBytes {
  import opened Basics
  import opened Varint
  import opened ChunkEncoder
  import opened ChunkFormat
  import opened FieldLzDecoder
  import opened Frame
  import opened Planner
  import opened ZstdCodec
  import Delta
  import EndToEnd
  import FieldLz
  import FieldLzEncoder
  import FieldLzGreedy
  import LiteralDict
  import Routes

  // ----- what FieldLZ is given --------------------------------------------------

  /** All literals and no tokens, or the greedy parse of the deltas, or that of the values. */
  lemma StreamsOfAChunk(policy: Policy, chunk: Chunk)
    ensures policy.literalOnly(chunk) ==>
              ChunkStreams(policy, chunk).literals == PackU32s(chunk) && Literal(ChunkStreams(policy, chunk))
    ensures !policy.literalOnly(chunk) && policy.delta(chunk) ==>
              Unpacked(ChunkStreams(policy, chunk)) == FieldLzEncoder.EncodeStreams(Delta.Deltas(chunk))
    ensures !policy.literalOnly(chunk) && !policy.delta(chunk) ==>
              Unpacked(ChunkStreams(policy, chunk)) == FieldLzEncoder.EncodeStreams(chunk)
  {
    hide Packed, Unpacked, FieldLzEncoder.EncodeStreams;
    PackedRoundTrip(FieldLzEncoder.EncodeStreams(Delta.Deltas(chunk)));
    PackedRoundTrip(FieldLzEncoder.EncodeStreams(chunk));
  }

  predicate Literal(s: SideStreams) {
    s.tokens == [] && s.offsets == [] && s.extraLiteralLengths == [] && s.extraMatchLengths == []
  }

  /** `n` values `v` as one literal and one match at distance one. */
  function RunOf(v: u32, n: nat): FieldLz.Streams
    requires 3 <= n <= MAX_CHUNK_ELEMENTS
  {
    FieldLz.Streams([v], [if n < 17 then 7 + 64 * (n - 2) else 0x03c7], [1], [], if n < 17 then [] else [n - 17])
  }

  lemma RunIsRunOf(chunk: Chunk)
    requires |chunk| >= 3 && forall k | 0 <= k < |chunk| :: chunk[k] == chunk[0]
    ensures FieldLzEncoder.EncodeStreams(chunk) == RunOf(chunk[0], |chunk|)
  {
    hide FieldLzEncoder.EncodeStreams;
    FieldLzGreedy.RunStreams(chunk);
  }

  /** A run of equal values, when neither choice is made, is parsed into one match. */
  lemma RunIsParsed(policy: Policy, chunk: Chunk)
    requires |chunk| >= 3 && forall k | 0 <= k < |chunk| :: chunk[k] == chunk[0]
    requires !policy.literalOnly(chunk) && !policy.delta(chunk)
    ensures Unpacked(ChunkStreams(policy, chunk)) == RunOf(chunk[0], |chunk|)
  {
    hide Unpacked, FieldLzEncoder.EncodeStreams, RunOf;
    StreamsOfAChunk(policy, chunk);
    RunIsRunOf(chunk);
  }

  lemma {:induction false} StrideDeltas(values: seq<u32>, d: u32)
    requires forall k | 0 <= k < |values| :: values[k] == (k + 1) * d % 0x1_0000_0000
    ensures forall k | 0 <= k < |values| :: Delta.Deltas(values)[k] == d
  {
    if values != [] {
      var init := values[..|values| - 1];
      StrideDeltas(init, d);
      StrideStep(|init| * d, d, Delta.Last(init), Delta.Last(values));
      assert (|init| + 1) * d == |init| * d + d;
    }
  }

  lemma StrideStep(total: nat, d: u32, a: u32, b: u32)
    requires a == total % 0x1_0000_0000 && b == (total + d) % 0x1_0000_0000
    ensures Delta.WrappingSub(b, a) == d
  {
  }

  /** Values that rise by their own first value, wrapping around, are a run of deltas. */
  lemma StrideIsParsed(policy: Policy, chunk: Chunk, d: u32)
    requires |chunk| >= 3 && forall k | 0 <= k < |chunk| :: chunk[k] == (k + 1) * d % 0x1_0000_0000
    requires !policy.literalOnly(chunk) && policy.delta(chunk)
    ensures Unpacked(ChunkStreams(policy, chunk)) == RunOf(d, |chunk|)
  {
    hide Unpacked, FieldLzEncoder.EncodeStreams, RunOf, Delta.Deltas;
    StreamsOfAChunk(policy, chunk);
    StrideDeltas(chunk, d);
    RunIsRunOf(Delta.Deltas(chunk));
  }

  // ----- records ----------------------------------------------------------------

  predicate Small(b: bytes) {
    |b| < 128 && forall i | 0 <= i < |b| :: b[i] < 128
  }

  lemma {:induction false} OneByteIds(ids: bytes)
    requires forall i | 0 <= i < |ids| :: ids[i] < 128
    ensures PrintIds(ids) == ids
  {
    if ids != [] { OneByteIds(ids[..|ids| - 1]); }
  }

  /** A record of small numbers: its id, then inputs, outputs and header, each counted. */
  lemma SmallRecord(id: nat, inputs: bytes, outputs: bytes, header: bytes)
    requires Small(inputs) && Small(outputs) && |header| < 128
    ensures PrintTransform(Transform(id, inputs, outputs, header)) ==
            Leb(id) + ([|inputs|] + inputs + [|outputs|] + outputs + [|header|] + header)
  {
    hide PrintIds;
    OneByteIds(inputs);
    OneByteIds(outputs);
    OneDigit(|inputs|);
    OneDigit(|outputs|);
    OneDigit(|header|);
    hide Leb;
  }

  lemma OneDigit(v: nat)
    requires v < 128
    ensures Leb(v) == [v]
  {
  }

  /** A zstd record, id 22: input, output, element width. */
  lemma ZstdRecord(a: u8, b: u8, width: u8)
    requires a < 128 && b < 128 && 1 <= width < 128
    ensures PrintTransform(Transform(ZSTD_ID, [a], [b], Leb(width))) == [22, 1, a, 1, b, 1, width]
  {
    hide PrintTransform, Leb;
    OneDigit(22);
    OneDigit(width);
    SmallRecord(22, [a], [b], [width]);
  }

  /** A delta record, id 1: input, output, no header. */
  lemma DeltaRecord(a: u8, b: u8)
    requires a < 128 && b < 128
    ensures PrintTransform(Transform(DELTA_INT_ID, [a], [b], [])) == [1, 1, a, 1, b, 0]
  {
    hide PrintTransform, Leb;
    OneDigit(1);
    SmallRecord(1, [a], [b], []);
  }

  /** A lane-joining record, id 31: four lanes, output, no header. */
  lemma Split4Record(l0: u8, l1: u8, l2: u8, l3: u8, b: u8)
    requires l0 < 128 && l1 < 128 && l2 < 128 && l3 < 128 && b < 128
    ensures PrintTransform(Transform(TRANSPOSE_SPLIT4_ID, [l0, l1, l2, l3], [b], [])) == [31, 4, l0, l1, l2, l3, 1, b, 0]
  {
    hide PrintTransform, Leb;
    OneDigit(31);
    SmallRecord(31, [l0, l1, l2, l3], [b], []);
  }

  /** A dictionary record, id 1001 in two bytes: table, codes, output, code width. */
  lemma DictRecord(table: u8, codes: u8, b: u8, width: u8)
    requires table < 128 && codes < 128 && b < 128 && (width == 1 || width == 2)
    ensures PrintTransform(Transform(LITERAL_DICT_ID, [table, codes], [b], Leb(width)))
         == [0xe9, 0x07, 2, table, codes, 1, b, 1, width]
  {
    assert Leb(1001) == [0xe9] + Leb(7);
    hide PrintTransform, Leb;
    OneDigit(7);
    OneDigit(width);
    SmallRecord(1001, [table, codes], [b], [width]);
  }

  /** A FieldLZ record, id 24: five inputs, one output, the chunk's length. */
  lemma FieldLzRecord(n: u8)
    requires n < 128
    ensures PrintTransform(Transform(FIELD_LZ_ID, [0, 1, 2, 3, 4], [5], Leb(n))) == [24, 5, 0, 1, 2, 3, 4, 1, 5, 1, n]
  {
    hide PrintTransform, Leb;
    OneDigit(24);
    OneDigit(n);
    SmallRecord(24, [0, 1, 2, 3, 4], [5], [n]);
  }

  // ----- short programs -----------------------------------------------------------

  lemma ShortStored(id: u8, data: bytes)
    requires id < 128 && |data| < 10
    ensures PrintStored(StoredStream(id, data)) == Block(id, data)
  {
  }

  /** A short stored stream: its id, its length and its bytes. */
  function Block(id: u8, data: bytes): bytes
    requires |data| < 10
  {
    [id, |data|] + data
  }

  lemma ConcatSnoc<T>(emit: T -> bytes, xs: seq<T>, x: T)
    ensures Concat(emit, xs + [x]) == Concat(emit, xs) + emit(x)
  {
    assert (xs + [x])[..|xs|] == xs;
  }

  /** Five stored streams in order. */
  lemma FiveStored(s: SideStreams)
    requires Routes.Short(s)
    ensures Concat(PrintStored, Stored(s)) ==
            Block(0, s.literals) + Block(1, s.tokens) + Block(2, s.offsets)
            + Block(3, s.extraLiteralLengths) + Block(4, s.extraMatchLengths)
  {
    hide PrintStored, Block;
    var s0, s1, s2 := StoredStream(0, s.literals), StoredStream(1, s.tokens), StoredStream(2, s.offsets);
    var s3, s4 := StoredStream(3, s.extraLiteralLengths), StoredStream(4, s.extraMatchLengths);
    ConcatSnoc(PrintStored, [], s0);
    ConcatSnoc(PrintStored, [s0], s1);
    ConcatSnoc(PrintStored, [s0, s1], s2);
    ConcatSnoc(PrintStored, [s0, s1, s2], s3);
    ConcatSnoc(PrintStored, [s0, s1, s2, s3], s4);
    ShortStored(0, s.literals);
    ShortStored(1, s.tokens);
    ShortStored(2, s.offsets);
    ShortStored(3, s.extraLiteralLengths);
    ShortStored(4, s.extraMatchLengths);
    assert [] + [s0] == [s0] && [s0] + [s1] == [s0, s1] && [s0, s1] + [s2] == [s0, s1, s2];
    assert [s0, s1, s2] + [s3] == [s0, s1, s2, s3] && [s0, s1, s2, s3] + [s4] == Stored(s);
  }

  function Stored(s: SideStreams): seq<StoredStream> {
    [StoredStream(0, s.literals), StoredStream(1, s.tokens), StoredStream(2, s.offsets),
     StoredStream(3, s.extraLiteralLengths), StoredStream(4, s.extraMatchLengths)]
  }

  /** The records of a short program, printed. */
  function Records(n: u8, delta: bool): bytes {
    [24, 5, 0, 1, 2, 3, 4, 1, 5, 1, n] + if delta then [1, 1, 5, 1, 6, 0] else []
  }

  lemma ShortRecords(n: u8, delta: bool)
    requires n < 128
    ensures Concat(PrintTransform, [Transform(24, [0, 1, 2, 3, 4], [5], [n])] + if delta then [Transform(1, [5], [6], [])] else [])
         == Records(n, delta)
  {
    hide PrintTransform;
    var t, d := Transform(24, [0, 1, 2, 3, 4], [5], [n]), Transform(1, [5], [6], []);
    assert Leb(n) == [n];
    FieldLzRecord(n);
    DeltaRecord(5, 6);
    ConcatSnoc(PrintTransform, [], t);
    ConcatSnoc(PrintTransform, [t], d);
    assert [] + [t] == [t] && [t] + [] == [t];
  }

  /** A chunk header of small numbers: values, slots, stored streams, records, final slot. */
  function ShortHeader(n: u8, delta: bool): bytes {
    if delta then [n, 7, 5, 2, 6] else [n, 6, 5, 1, 5]
  }

  lemma ShortChunk(z: Codec, policy: Policy, s: SideStreams, n: u8, delta: bool)
    requires Routes.Short(s) && n < 128
    ensures PrintProgram(Plan(z, policy, s, n, delta)) ==
            ShortHeader(n, delta) + (Concat(PrintStored, Stored(s)) + Records(n, delta))
  {
    hide Plan, Records;
    Routes.ShortPlan(z, policy, s, n, delta);
    ShortRecords(n, delta);
    var p := Plan(z, policy, s, n, delta);
    SmallHeader(p);
  }

  lemma SmallHeader(p: Program)
    requires p.numElements < 128 && p.slotCount < 128 && |p.stored| < 128 && |p.transforms| < 128 && p.finalId < 128
    ensures PrintHeader(p) == [p.numElements, p.slotCount, |p.stored|, |p.transforms|, p.finalId]
  {
  }

  // ----- whole frames ---------------------------------------------------------------

  /** Too short an input for an adaptive cut is one chunk. */
  lemma OneChunk(z: Codec, policy: Policy, input: Chunk)
    requires 1 <= |input| < 16_640
    ensures EndToEnd.Compress(z, policy, input) == PrintFrameHeader(|input|, 1) + PrintProgram(ChunkPlan(z, policy, input))
  {
    hide ChunkPlan, PrintProgram, PrintFrameHeader;
    OneRange(input);
    var r := Range(0, |input|);
    var ranges := [r];
    assert EndToEnd.Plans(z, policy, input, ranges[..0]) == [];
    assert input[0..|input|] == input;
    assert [] + [ChunkPlan(z, policy, input)] == [ChunkPlan(z, policy, input)];
    OneProgram(ChunkPlan(z, policy, input));
  }

  lemma OneRange(input: Chunk)
    requires 1 <= |input| < 16_640
    ensures ChunkRanges(input, 0, false) == [Range(0, |input|)]
  {
    hide AdaptiveEnd;
    if AdaptiveEnd(input).Some? { AdaptiveEndIsBoundary(input, AdaptiveEnd(input).value); }
    assert Window(input, 0, MAX_CHUNK_ELEMENTS) == input;
    assert NextRange(input, 0, false) == Range(0, |input|) && !IsCut(input, 0, false);
  }

  lemma OneProgram(p: Program)
    ensures PrintPrograms([p]) == PrintProgram(p)
  {
    hide PrintProgram;
    assert PrintPrograms([p][..0]) == [];
  }

  lemma Regroup(f: bytes, h: bytes, s0: bytes, s1: bytes, s2: bytes, s3: bytes, s4: bytes, r: bytes)
    ensures f + (h + ((s0 + s1 + s2 + s3 + s4) + r)) == f + h + s0 + s1 + s2 + s3 + s4 + r
  {
  }

  /** A frame of one chunk whose streams are short: frame header, chunk header, streams, records. */
  lemma ShortFrame(z: Codec, policy: Policy, input: Chunk, s: SideStreams)
    requires 1 <= |input| < 128 && s == ChunkStreams(policy, input) && Routes.Short(s)
    ensures var delta := !policy.literalOnly(input) && policy.delta(input);
            EndToEnd.Compress(z, policy, input) ==
            [0x4f, 0x46, 0x5a, 0x4c, 1, 1, 4, 4, |input|, 1] + ShortHeader(|input|, delta)
            + Block(0, s.literals) + Block(1, s.tokens) + Block(2, s.offsets)
            + Block(3, s.extraLiteralLengths) + Block(4, s.extraMatchLengths)
            + Records(|input|, delta)
  {
    hide PrintProgram, Plan, ChunkStreams, ShortHeader, Records, EndToEnd.Compress, PrintStored, Block;
    var n, delta := |input|, !policy.literalOnly(input) && policy.delta(input);
    OneChunk(z, policy, input);
    ShortChunk(z, policy, s, n, delta);
    SmallFrameHeader(n);
    FiveStored(s);
    Regroup([0x4f, 0x46, 0x5a, 0x4c, 1, 1, 4, 4, n, 1], ShortHeader(n, delta), Block(0, s.literals), Block(1, s.tokens),
            Block(2, s.offsets), Block(3, s.extraLiteralLengths), Block(4, s.extraMatchLengths), Records(n, delta));
  }

  lemma SmallFrameHeader(n: u8)
    requires n < 128
    ensures PrintFrameHeader(n, 1) == [0x4f, 0x46, 0x5a, 0x4c, 1, 1, 4, 4, n, 1]
  {
    assert Leb(4) == [4] && Leb(n) == [n] && Leb(1) == [1];
  }

  lemma FourBytesOf(b0: u8, b1: u8, b2: u8, b3: u8)
    ensures PackU32s([Word32(b0, b1, b2, b3)]) == [b0, b1, b2, b3]
    ensures Word32(b0, b1, b2, b3) == Base256(b0, b1, b2, b3)
  {
    hide Word32, Byte32;
    BytesOfWord(b0, b1, b2, b3);
    WordIsBase256(b0, b1, b2, b3);
    assert PackU32s([]) == [];
  }

  lemma WordIsBase256(b0: u8, b1: u8, b2: u8, b3: u8)
    ensures Word32(b0, b1, b2, b3) == Base256(b0, b1, b2, b3)
  {
  }

  /** One value is one literal, whatever is chosen. */
  lemma OneLiteral(policy: Policy, v: u32)
    ensures ChunkStreams(policy, [v]) == SideStreams(PackU32s([v]), [], [], [], [])
  {
    OneDelta(v);
    NoMatch([v]);
  }

  lemma OneDelta(v: u32)
    ensures Delta.Deltas([v]) == [v]
  {
    assert [v][..0] == [];
  }

  lemma NoMatch(chunk: Chunk)
    requires |chunk| == 1
    ensures Packed(FieldLzEncoder.EncodeStreams(chunk)) == SideStreams(PackU32s(chunk), [], [], [], [])
  {
    hide PackU32s;
    assert FieldLzEncoder.Commands(chunk) == [];
    assert FieldLzEncoder.Literals(chunk, []) == chunk;
    NothingPacked();
  }

  lemma NothingPacked()
    ensures PackU32s([]) == [] && PackU16s([]) == []
  {
  }

  /** The frame of one value, to the byte, for every value and every policy. */
  lemma OneValueFrame(z: Codec, policy: Policy, b0: u8, b1: u8, b2: u8, b3: u8)
    ensures var v: u32 := Base256(b0, b1, b2, b3);
            EndToEnd.Compress(z, policy, [v]) ==
            [0x4f, 0x46, 0x5a, 0x4c, 1, 1, 4, 4, 1, 1]
            + (if !policy.literalOnly([v]) && policy.delta([v]) then [1, 7, 5, 2, 6] else [1, 6, 5, 1, 5])
            + [0, 4, b0, b1, b2, b3] + [1, 0] + [2, 0] + [3, 0] + [4, 0]
            + ([24, 5, 0, 1, 2, 3, 4, 1, 5, 1, 1]
               + if !policy.literalOnly([v]) && policy.delta([v]) then [1, 1, 5, 1, 6, 0] else [])
  {
    hide EndToEnd.Compress, ChunkStreams, PackU32s, Word32;
    FourBytesOf(b0, b1, b2, b3);
    var v := Word32(b0, b1, b2, b3);
    OneLiteral(policy, v);
    var s := SideStreams([b0, b1, b2, b3], [], [], [], []);
    ShortFrame(z, policy, [v], s);
    ValueBlock(0, b0, b1, b2, b3);
    EmptyBlocks();
  }

  lemma ValueBlock(id: u8, b0: u8, b1: u8, b2: u8, b3: u8)
    ensures Block(id, [b0, b1, b2, b3]) == [id, 4, b0, b1, b2, b3]
  {
  }

  lemma EmptyBlocks()
    ensures forall id: u8 :: Block(id, []) == [id, 0]
  {
  }

  /** The streams of a run of up to 127 values, to the byte. */
  lemma RunPacked(b0: u8, b1: u8, b2: u8, b3: u8, n: nat)
    requires 3 <= n < 128
    ensures Packed(RunOf(Word32(b0, b1, b2, b3), n)) ==
            SideStreams([b0, b1, b2, b3],
                        if n < 17 then [(7 + 64 * (n - 2)) % 0x100, (7 + 64 * (n - 2)) / 0x100] else [0xc7, 0x03],
                        [1, 0, 0, 0], [], if n < 17 then [] else [n - 17, 0, 0, 0])
  {
    hide PackU32s, Word32;
    NothingPacked();
    FourBytesOf(b0, b1, b2, b3);
    FourBytesOf(1, 0, 0, 0);
    WordIsBase256(1, 0, 0, 0);
    if n >= 17 {
      FourBytesOf(n - 17, 0, 0, 0);
      WordIsBase256(n - 17, 0, 0, 0);
    }
  }

  /** The frame of a run of 3 to 127 equal values that is parsed as it is: one literal, one token,
      the offset 1 and, from 17 values on, the extra match length. */
  lemma RunFrame(z: Codec, policy: Policy, b0: u8, b1: u8, b2: u8, b3: u8, input: Chunk)
    requires 3 <= |input| < 128 && forall k | 0 <= k < |input| :: input[k] == Base256(b0, b1, b2, b3)
    requires !policy.literalOnly(input) && !policy.delta(input)
    ensures var n := |input|;
            EndToEnd.Compress(z, policy, input) ==
            [0x4f, 0x46, 0x5a, 0x4c, 1, 1, 4, 4, n, 1] + [n, 6, 5, 1, 5]
            + [0, 4, b0, b1, b2, b3]
            + (if n < 17 then [1, 2, (7 + 64 * (n - 2)) % 0x100, (7 + 64 * (n - 2)) / 0x100] else [1, 2, 0xc7, 0x03])
            + [2, 4, 1, 0, 0, 0] + [3, 0] + (if n < 17 then [4, 0] else [4, 4, n - 17, 0, 0, 0])
            + [24, 5, 0, 1, 2, 3, 4, 1, 5, 1, n]
  {
    hide EndToEnd.Compress, Packed, RunOf, Word32, FieldLzEncoder.EncodeStreams;
    var n := |input|;
    WordIsBase256(b0, b1, b2, b3);
    RunIsRunOf(input);
    RunPacked(b0, b1, b2, b3, n);
    var s := ChunkStreams(policy, input);
    ShortFrame(z, policy, input, s);
    RunBlocks(s, b0, b1, b2, b3, n);
    assert Records(n, false) == [24, 5, 0, 1, 2, 3, 4, 1, 5, 1, n];
  }

  lemma RunBlocks(s: SideStreams, b0: u8, b1: u8, b2: u8, b3: u8, n: nat)
    requires 3 <= n < 128
    requires s == SideStreams([b0, b1, b2, b3],
                              if n < 17 then [(7 + 64 * (n - 2)) % 0x100, (7 + 64 * (n - 2)) / 0x100] else [0xc7, 0x03],
                              [1, 0, 0, 0], [], if n < 17 then [] else [n - 17, 0, 0, 0])
    ensures Block(0, s.literals) == [0, 4, b0, b1, b2, b3]
    ensures Block(1, s.tokens) == if n < 17 then [1, 2, (7 + 64 * (n - 2)) % 0x100, (7 + 64 * (n - 2)) / 0x100] else [1, 2, 0xc7, 0x03]
    ensures Block(2, s.offsets) == [2, 4, 1, 0, 0, 0] && Block(3, s.extraLiteralLengths) == [3, 0]
    ensures Block(4, s.extraMatchLengths) == if n < 17 then [4, 0] else [4, 4, n - 17, 0, 0, 0]
  {
  }
}
