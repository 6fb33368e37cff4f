/** Compression, and the theorem the format is for: decompressing a compressed sequence
    gives it back, whatever the heuristics chose. */
module EndToEnd {
  import opened Basics
  import opened Varint
  import opened ChunkEncoder
  import opened ChunkFormat
  import opened ChunkMachine
  import opened FieldLzDecoder
  import opened Frame
  import opened Planner
  import opened PlannerSound
  import opened ZstdCodec
  import Delta
  import FieldLz
  import FieldLzEncoder
  import FieldLzRoundTrip

  // ----- one chunk ------------------------------------------------------------

  lemma EncodedBounds(chunk: Chunk)
    requires chunk != []
    ensures var s := FieldLzEncoder.EncodeStreams(chunk);
            && |s.literals| <= |chunk| && 2 * |s.tokens| <= |chunk| && |s.offsets| == |s.tokens|
            && |s.extraLiteral| <= |s.tokens| && |s.extraMatch| <= |s.tokens|
  {
    hide FieldLz.Tokens, FieldLz.Offsets, FieldLz.ExtraLiterals, FieldLz.ExtraMatches;
    FieldLzRoundTrip.EncoderConserves(chunk);
    FieldLz.EmittedCounts(FieldLzEncoder.Commands(chunk));
  }

  lemma PackedStreamsOk(s: FieldLz.Streams, n: nat)
    requires n <= MAX_CHUNK_ELEMENTS
    requires |s.literals| <= n && 2 * |s.tokens| <= n && |s.offsets| <= |s.tokens|
    requires |s.extraLiteral| <= |s.tokens| && |s.extraMatch| <= |s.tokens|
    ensures StreamsOk(Packed(s), n)
  {
    hide PackU32s, PackU16s;
  }

  lemma LiteralStreamsOk(chunk: Chunk)
    ensures StreamsOk(SideStreams(PackU32s(chunk), [], [], [], []), |chunk|)
  {
    hide PackU32s;
  }

  /** Every route's streams fit the guards in front of zstd. */
  lemma ChunkStreamsOk(policy: Policy, chunk: Chunk)
    requires chunk != []
    ensures StreamsOk(ChunkStreams(policy, chunk), |chunk|)
  {
    hide StreamsOk, Packed, FieldLzEncoder.EncodeStreams, Delta.Deltas, PackU32s;
    if policy.literalOnly(chunk) {
      LiteralStreamsOk(chunk);
    } else if policy.delta(chunk) {
      EncodedBounds(Delta.Deltas(chunk));
      PackedStreamsOk(FieldLzEncoder.EncodeStreams(Delta.Deltas(chunk)), |chunk|);
    } else {
      EncodedBounds(chunk);
      PackedStreamsOk(FieldLzEncoder.EncodeStreams(chunk), |chunk|);
    }
  }

  /** A chunk's program is printable, accepted, and yields the chunk: for literals alone, for
      deltas and for plain values, and for every literal route. */
  lemma ChunkPlanRuns(z: Codec, policy: Policy, chunk: Chunk)
    requires Contract(z) && chunk != []
    ensures Fits(ChunkPlan(z, policy, chunk))
    ensures RunProgram(z, ChunkPlan(z, policy, chunk)) == Ok(chunk)
  {
    hide StreamsOk, Packed, FieldLzEncoder.EncodeStreams, Delta.Deltas, Delta.Accumulate, PackU32s, Plan, RunProgram, DecodeSpec, Fits;
    ChunkStreamsOk(policy, chunk);
    PlanFits(z, policy, |chunk|, ChunkStreams(policy, chunk), !policy.literalOnly(chunk) && policy.delta(chunk));
    if policy.literalOnly(chunk) {
      FieldLzRoundTrip.LiteralOnlyDecodes(chunk);
      RawPlanRuns(z, policy, |chunk|, ChunkStreams(policy, chunk), chunk);
    } else if policy.delta(chunk) {
      var deltas := Delta.Deltas(chunk);
      FieldLzRoundTrip.EncodeDecode(deltas);
      DeltaPlanRuns(z, policy, |chunk|, ChunkStreams(policy, chunk), deltas);
      Delta.AccumulateDeltas(chunk);
    } else {
      FieldLzRoundTrip.EncodeDecode(chunk);
      RawPlanRuns(z, policy, |chunk|, ChunkStreams(policy, chunk), chunk);
    }
  }

  /** A written chunk reads back as itself and leaves whatever follows it. */
  lemma ChunkRoundTrip(z: Codec, policy: Policy, chunk: Chunk, rest: bytes)
    requires Contract(z) && chunk != []
    ensures DecodeChunk(z, PrintProgram(ChunkPlan(z, policy, chunk)) + rest) == Ok((chunk, rest))
  {
    hide ChunkPlan, RunProgram, PrintProgram, DecodeChunk, Fits;
    ChunkPlanRuns(z, policy, chunk);
    ProgramDecodes(z, ChunkPlan(z, policy, chunk), rest);
  }

  // ----- whole frames ---------------------------------------------------------

  predicate Within(ranges: seq<Range>, input: seq<u32>) {
    forall i | 0 <= i < |ranges| :: ranges[i].start < ranges[i].end <= |input| && ranges[i].end - ranges[i].start <= MAX_CHUNK_ELEMENTS
  }

  function Plans(z: Codec, policy: Policy, input: seq<u32>, ranges: seq<Range>): (ps: seq<Program>)
    requires Within(ranges, input)
    ensures |ps| == |ranges|
  {
    if ranges == [] then []
    else
      var r := ranges[|ranges| - 1];
      Plans(z, policy, input, ranges[..|ranges| - 1]) + [ChunkPlan(z, policy, input[r.start..r.end])]
  }

  lemma {:induction false} TilesWithin(ranges: seq<Range>, from: nat, input: seq<u32>)
    requires Tiles(ranges, from, |input|)
    ensures Within(ranges, input) && from <= |input|
  {
    if ranges != [] {
      TilesWithin(ranges[1..], ranges[0].end, input);
      forall i | 0 <= i < |ranges|
        ensures ranges[i].start < ranges[i].end <= |input| && ranges[i].end - ranges[i].start <= MAX_CHUNK_ELEMENTS
      {
        if i > 0 { assert ranges[i] == ranges[1..][i - 1]; }
      }
    }
  }

  /** A frame written from any partition of the input. */
  function FrameOf(z: Codec, policy: Policy, input: seq<u32>, ranges: seq<Range>): bytes
    requires Within(ranges, input)
  {
    PrintFrameHeader(|input|, |ranges|) + PrintPrograms(Plans(z, policy, input, ranges))
  }

  /** What compression writes: the frame of the ranges the chunker picks. */
  function Compress(z: Codec, policy: Policy, input: seq<u32>): bytes {
    RangesTile(input, 0, false);
    TilesWithin(ChunkRanges(input, 0, false), 0, input);
    FrameOf(z, policy, input, ChunkRanges(input, 0, false))
  }

  lemma {:induction false} TilesSnoc(ranges: seq<Range>, from: nat, to: nat)
    requires ranges != [] && Tiles(ranges, from, to)
    ensures Tiles(ranges[..|ranges| - 1], from, ranges[|ranges| - 1].start) && ranges[|ranges| - 1].end == to
  {
    if |ranges| > 1 {
      TilesSnoc(ranges[1..], ranges[0].end, to);
      assert ranges[..|ranges| - 1][1..] == ranges[1..][..|ranges| - 2];
    }
  }

  lemma OneMorePlan(z: Codec, policy: Policy, input: seq<u32>, ranges: seq<Range>)
    requires Contract(z) && Within(ranges, input) && ranges != []
    requires var init, last := ranges[..|ranges| - 1], ranges[|ranges| - 1];
             var before := Plans(z, policy, input, init);
             AllFit(before) && RunAllPrograms(z, before) == Ok(input[..last.start])
    ensures AllFit(Plans(z, policy, input, ranges))
    ensures RunAllPrograms(z, Plans(z, policy, input, ranges)) == Ok(input[..ranges[|ranges| - 1].end])
  {
    hide ChunkPlan, RunProgram, Fits, AllFit, RunAllPrograms, Contract;
    var last := ranges[|ranges| - 1];
    var chunk := input[last.start..last.end];
    ChunkPlanRuns(z, policy, chunk);
    RunSnoc(z, Plans(z, policy, input, ranges[..|ranges| - 1]), ChunkPlan(z, policy, chunk));
    assert input[..last.start] + chunk == input[..last.end];
  }

  lemma RunSnoc(z: Codec, ps: seq<Program>, p: Program)
    requires AllFit(ps) && RunAllPrograms(z, ps).Ok? && Fits(p) && RunProgram(z, p).Ok?
    ensures AllFit(ps + [p])
    ensures RunAllPrograms(z, ps + [p]) == Ok(RunAllPrograms(z, ps).value + RunProgram(z, p).value)
  {
    hide RunProgram, Fits;
    assert (ps + [p])[..|ps|] == ps;
  }

  lemma NoPrograms(z: Codec, policy: Policy, input: seq<u32>)
    ensures AllFit(Plans(z, policy, input, [])) && RunAllPrograms(z, Plans(z, policy, input, [])) == Ok(input[..0])
  {
  }

  lemma {:induction false} PlansRun(z: Codec, policy: Policy, input: seq<u32>, ranges: seq<Range>, to: nat)
    requires Contract(z) && Within(ranges, input) && to <= |input| && Tiles(ranges, 0, to)
    ensures AllFit(Plans(z, policy, input, ranges))
    ensures RunAllPrograms(z, Plans(z, policy, input, ranges)) == Ok(input[..to])
    decreases |ranges|
  {
    hide RunAllPrograms, AllFit, Plans, Contract;
    if ranges == [] {
      NoPrograms(z, policy, input);
    } else {
      var last := ranges[|ranges| - 1];
      TilesSnoc(ranges, 0, to);
      PlansRun(z, policy, input, ranges[..|ranges| - 1], last.start);
      OneMorePlan(z, policy, input, ranges);
    }
  }

  lemma {:induction false} TilesCount(ranges: seq<Range>, from: nat, to: nat)
    requires Tiles(ranges, from, to)
    ensures |ranges| <= to - from
  {
    if ranges != [] {
      TilesCount(ranges[1..], ranges[0].end, to);
    }
  }

  /** Any way of cutting the input into chunks, under any policy, decompresses to the input. */
  lemma AnyPartitionRoundTrips(z: Codec, policy: Policy, input: seq<u32>, ranges: seq<Range>)
    requires Contract(z) && |input| < U64_LIMIT
    requires Within(ranges, input) && Tiles(ranges, 0, |input|)
    ensures Decompress(z, FrameOf(z, policy, input, ranges)) == Ok(input)
  {
    hide Decompress, Plans, RunAllPrograms, AllFit, PrintFrameHeader, PrintPrograms;
    PlansRun(z, policy, input, ranges, |input|);
    assert input[..|input|] == input;
    TilesCount(ranges, 0, |input|);
    ProgramsDecompress(z, Plans(z, policy, input, ranges), input);
  }

  /** End to end: for every sequence a slice can hold, every policy and every zstd that keeps
      its contract, decompressing what was compressed gives the sequence back. */
  lemma RoundTrip(z: Codec, policy: Policy, input: seq<u32>)
    requires Contract(z) && |input| < U64_LIMIT
    ensures Decompress(z, Compress(z, policy, input)) == Ok(input)
  {
    hide Decompress, ChunkRanges, FrameOf;
    RangesTile(input, 0, false);
    TilesWithin(ChunkRanges(input, 0, false), 0, input);
    AnyPartitionRoundTrips(z, policy, input, ChunkRanges(input, 0, false));
  }

  /** The frame of no values is these ten bytes: src/frame.rs:1088-1096. */
  lemma EmptyFrame(z: Codec, policy: Policy)
    ensures Compress(z, policy, []) == [0x4f, 0x46, 0x5a, 0x4c, 0x01, 0x01, 0x04, 0x04, 0x00, 0x00]
  {
    assert ChunkRanges([], 0, false) == [];
    NoPlans(z, policy, []);
    assert Leb(4) == [4] && Leb(0) == [0];
  }

  /** src/frame.rs:36-57. Every chunk's program fits its 64-bit fields, and nothing fails. */
  method CompressU32(z: Codec, policy: Policy, input: seq<u32>) returns (out: bytes)
    requires Contract(z) && |input| < U64_LIMIT
    ensures out == Compress(z, policy, input)
    ensures Decompress(z, out) == Ok(input)
  {
    hide Decompress, ChunkRanges, Plans, PrintFrameHeader, PrintPrograms, Leb, ChunkPlan, Fits;
    var ranges := ChooseChunkRanges(input);
    RangesTile(input, 0, false);
    TilesWithin(ranges, 0, input);
    TilesCount(ranges, 0, |input|);
    out := WriteFrameHeader(|input|, |ranges|);
    out := WriteChunks(z, policy, input, ranges, out);
    RoundTrip(z, policy, input);
  }

  method WriteFrameHeader(n: u64, chunkCount: u64) returns (out: bytes)
    ensures out == PrintFrameHeader(n, chunkCount)
  {
    hide Leb;
    out := MAGIC;
    out := out + [VERSION_V1];
    out := out + [KIND_U32_FIELD_LZ];
    out := out + [TYPE_NUMERIC];
    assert out == Preamble();
    out := WriteU64(U32_WIDTH, out);
    out := WriteU64(n, out);
    out := WriteU64(chunkCount, out);
  }

  method WriteChunk(z: Codec, policy: Policy, chunk: Chunk, start: bytes) returns (out: bytes)
    requires Contract(z) && chunk != []
    ensures out == start + PrintProgram(ChunkPlan(z, policy, chunk))
  {
    hide PrintProgram, ChunkPlan, Fits, RunProgram, Contract;
    ChunkPlanRuns(z, policy, chunk);
    var p := EncodeChunk(z, policy, chunk);
    var written := Serialize(p);
    return start + written;
  }

  method WriteChunks(z: Codec, policy: Policy, input: seq<u32>, ranges: seq<Range>, start: bytes) returns (out: bytes)
    requires Contract(z) && Within(ranges, input)
    ensures out == start + PrintPrograms(Plans(z, policy, input, ranges))
  {
    hide PrintProgram, ChunkPlan, Contract, Plans, PrintPrograms;
    out := start;
    NoPlans(z, policy, input);
    for k := 0 to |ranges|
      invariant out == start + PrintPrograms(Plans(z, policy, input, ranges[..k]))
    {
      PrintNext(z, policy, input, ranges, k);
      out := WriteChunk(z, policy, input[ranges[k].start..ranges[k].end], out);
    }
    assert ranges[..|ranges|] == ranges;
  }

  lemma NoPlans(z: Codec, policy: Policy, input: seq<u32>)
    ensures PrintPrograms(Plans(z, policy, input, [])) == []
  {
  }

  lemma PrintNext(z: Codec, policy: Policy, input: seq<u32>, ranges: seq<Range>, k: nat)
    requires k < |ranges| && Within(ranges, input)
    ensures PrintPrograms(Plans(z, policy, input, ranges[..k + 1]))
         == PrintPrograms(Plans(z, policy, input, ranges[..k]))
            + PrintProgram(ChunkPlan(z, policy, input[ranges[k].start..ranges[k].end]))
  {
    hide PrintProgram, ChunkPlan, PrintPrograms;
    assert ranges[..k + 1][..k] == ranges[..k];
    PrintSnoc(Plans(z, policy, input, ranges[..k]), ChunkPlan(z, policy, input[ranges[k].start..ranges[k].end]));
  }

  lemma PrintSnoc(ps: seq<Program>, p: Program)
    ensures PrintPrograms(ps + [p]) == PrintPrograms(ps) + PrintProgram(p)
  {
    hide PrintProgram;
    assert (ps + [p])[..|ps|] == ps;
  }
}
