/** Whole frames: chunking, compression and decompression, src/frame.rs:36-164. */
module Frame {
  import opened Basics
  import opened Varint
  import opened ChunkEncoder
  import opened ChunkFormat
  import opened ChunkMachine
  import opened LiteralDict
  import opened Planner
  import opened ZstdCodec
  import ChunkDecoder
  import ChunkFacts

  // ----- chunking -------------------------------------------------------------

  const ADAPTIVE_MIN_TAIL: nat := 16 * 1024
  const ADAPTIVE_MIN_ELEMENTS: nat := 256 + 16 * 1024
  const REFINED_CHUNK_ELEMENTS: nat := 512 * 1024 / U32_WIDTH

  /** The longest prefix with at most 256 distinct values. */
  function LongestU8Prefix(chunk: seq<u32>): (k: nat)
    ensures k <= |chunk|
  {
    if |Distinct(chunk)| <= 256 then |chunk| else LongestU8Prefix(chunk[..|chunk| - 1])
  }

  /** Where to cut a window early, if at all. */
  function AdaptiveEnd(chunk: seq<u32>): (end: Option<nat>)
    ensures end.Some? ==> 0 < end.value < |chunk|
  {
    var k := LongestU8Prefix(chunk);
    if k < |chunk| && k >= ADAPTIVE_MIN_ELEMENTS && |chunk| - k >= ADAPTIVE_MIN_TAIL then Some(k) else None
  }

  /** A chunk's place in the input: from `start` up to `end`. */
  datatype Range = Range(start: nat, end: nat)

  function Smaller(a: nat, b: nat): nat { if a < b then a else b }

  /** The values from `start` that a chunk may hold at most. */
  function Window(input: seq<u32>, start: nat, limit: nat): seq<u32>
    requires start <= |input|
  {
    input[start..Smaller(|input|, start + limit)]
  }

  /** Whether the window at `start` is cut at its adaptive boundary. */
  predicate IsCut(input: seq<u32>, start: nat, refined: bool)
    requires start <= |input|
  {
    !refined && AdaptiveEnd(Window(input, start, MAX_CHUNK_ELEMENTS)).Some?
  }

  /** The range that begins at `start`; `refined` once an adaptive cut has been made. */
  function NextRange(input: seq<u32>, start: nat, refined: bool): (r: Range)
    requires start < |input|
    ensures r.start == start < r.end <= |input| && r.end <= start + MAX_CHUNK_ELEMENTS
  {
    if refined then Range(start, Smaller(|input|, start + REFINED_CHUNK_ELEMENTS))
    else
      var window := Window(input, start, MAX_CHUNK_ELEMENTS);
      var adaptive := AdaptiveEnd(window);
      if adaptive.Some? then Range(start, start + adaptive.value) else Range(start, start + |window|)
  }

  function ChunkRanges(input: seq<u32>, start: nat, refined: bool): seq<Range>
    requires start <= |input|
    decreases |input| - start
  {
    if start == |input| then []
    else
      var r := NextRange(input, start, refined);
      [r] + ChunkRanges(input, r.end, refined || IsCut(input, start, refined))
  }

  /** Non-empty ranges, end to end, each small enough for a chunk. */
  predicate Tiles(ranges: seq<Range>, from: nat, to: nat) {
    if ranges == [] then from == to
    else
      && ranges[0].start == from < ranges[0].end <= from + MAX_CHUNK_ELEMENTS
      && Tiles(ranges[1..], ranges[0].end, to)
  }

  /** The ranges cover the input exactly once, in order. */
  lemma {:induction false} RangesTile(input: seq<u32>, start: nat, refined: bool)
    requires start <= |input|
    ensures Tiles(ChunkRanges(input, start, refined), start, |input|)
    decreases |input| - start
  {
    if start < |input| {
      hide NextRange, IsCut;
      var r := NextRange(input, start, refined);
      RangesTile(input, r.end, refined || IsCut(input, start, refined));
      assert ChunkRanges(input, start, refined)[1..] == ChunkRanges(input, r.end, refined || IsCut(input, start, refined));
    }
  }

  function Size(r: Range): int { r.end - r.start }

  /** A range that fills its window, which has no adaptive boundary. */
  predicate FullRange(input: seq<u32>, r: Range) {
    && r.start <= |input|
    && var window := Window(input, r.start, 4_194_304);
       AdaptiveEnd(window) == None && Size(r) == |window|
  }

  /** A range that ends at the adaptive boundary of its window. */
  predicate CutRange(input: seq<u32>, r: Range) {
    r.start <= |input| && AdaptiveEnd(Window(input, r.start, 4_194_304)) == Some(Size(r))
  }

  /** Range `i` is as it should be when the adaptive cut is range `cut`: before it windows are
      full, after it they are refined; only the last may be shorter. */
  predicate RangeOk(input: seq<u32>, ranges: seq<Range>, cut: nat, i: nat)
    requires i < |ranges|
  {
    && (i < cut ==> FullRange(input, ranges[i]) && (i + 1 < |ranges| ==> Size(ranges[i]) == 4_194_304))
    && (i == cut ==> CutRange(input, ranges[i]))
    && (i > cut && i + 1 < |ranges| ==> Size(ranges[i]) == 131_072)
  }

  /** At most one range ends at an adaptive boundary: the one numbered `cut`, if there is one. */
  ghost predicate CutAt(input: seq<u32>, ranges: seq<Range>, cut: nat) {
    cut <= |ranges| && forall i | 0 <= i < |ranges| :: RangeOk(input, ranges, cut, i)
  }

  lemma {:induction false} RefinedRegular(input: seq<u32>, start: nat, i: nat)
    requires start <= |input| && i + 1 < |ChunkRanges(input, start, true)|
    ensures Size(ChunkRanges(input, start, true)[i]) == REFINED_CHUNK_ELEMENTS
    decreases i
  {
    var r := NextRange(input, start, true);
    var rest := ChunkRanges(input, r.end, true);
    assert ChunkRanges(input, start, true) == [r] + rest;
    if i == 0 {
      assert r.end < |input|;
    } else {
      RefinedRegular(input, r.end, i - 1);
    }
  }

  lemma FirstFull(input: seq<u32>, start: nat)
    requires start < |input| && !IsCut(input, start, false)
    ensures var r := NextRange(input, start, false);
            FullRange(input, r) && (r.end < |input| ==> Size(r) == MAX_CHUNK_ELEMENTS)
  {
    hide AdaptiveEnd;
  }

  lemma FirstCut(input: seq<u32>, start: nat)
    requires start < |input| && IsCut(input, start, false)
    ensures CutRange(input, NextRange(input, start, false))
  {
    hide AdaptiveEnd;
  }

  lemma {:induction false} RangesShape(input: seq<u32>, start: nat) returns (cut: nat)
    requires start <= |input|
    ensures CutAt(input, ChunkRanges(input, start, false), cut)
    decreases |input| - start
  {
    hide NextRange, IsCut, FullRange, CutRange;
    var ranges := ChunkRanges(input, start, false);
    if start == |input| { return 0; }
    var r := NextRange(input, start, false);
    if IsCut(input, start, false) {
      cut := 0;
      FirstCut(input, start);
      var rest := ChunkRanges(input, r.end, true);
      forall i | 0 <= i < |ranges| ensures RangeOk(input, ranges, 0, i) {
        if 0 < i < |ranges| - 1 { RefinedRegular(input, r.end, i - 1); }
      }
    } else {
      FirstFull(input, start);
      var rest := ChunkRanges(input, r.end, false);
      var later := RangesShape(input, r.end);
      cut := later + 1;
      PrependFull(input, r, rest, later);
    }
  }

  lemma PrependFull(input: seq<u32>, r: Range, rest: seq<Range>, cut: nat)
    requires FullRange(input, r) && CutAt(input, rest, cut)
    requires rest != [] ==> Size(r) == MAX_CHUNK_ELEMENTS
    ensures CutAt(input, [r] + rest, cut + 1)
  {
    hide FullRange, CutRange;
    var ranges, later := [r] + rest, cut + 1;
    forall i | 0 <= i < |ranges| ensures RangeOk(input, ranges, later, i) {
      if i > 0 { assert RangeOk(input, rest, cut, i - 1); }
    }
  }

  // ----- the adaptive boundary ------------------------------------------------

  lemma {:induction false} LongestIsLongest(chunk: seq<u32>, j: nat)
    requires j <= |chunk|
    ensures |Distinct(chunk[..j])| <= 256 <==> j <= LongestU8Prefix(chunk)
    decreases |chunk|
  {
    if |Distinct(chunk)| <= 256 {
      DistinctPrefix(chunk, j);
    } else if j == |chunk| {
      assert chunk[..j] == chunk;
    } else {
      assert chunk[..|chunk| - 1][..j] == chunk[..j];
      LongestIsLongest(chunk[..|chunk| - 1], j);
    }
  }

  lemma OneMoreDistinct(chunk: seq<u32>, j: nat)
    requires j < |chunk|
    ensures Distinct(chunk[..j + 1]) == if chunk[j] in chunk[..j] then Distinct(chunk[..j]) else Distinct(chunk[..j]) + [chunk[j]]
  {
    assert chunk[..j + 1][..j] == chunk[..j];
    DistinctGrows(chunk[..j + 1]);
  }

  /** A prefix with 256 distinct values before a new one is the longest. */
  lemma BoundaryIsLongest(chunk: seq<u32>, j: nat)
    requires j < |chunk| && |Distinct(chunk[..j])| == 256 && chunk[j] !in chunk[..j]
    ensures LongestU8Prefix(chunk) == j
  {
    LongestIsLongest(chunk, j);
    LongestIsLongest(chunk, j + 1);
    OneMoreDistinct(chunk, j);
  }

  /** An adaptive cut is the longest prefix with at most 256 distinct values; it has exactly
      256, the next value is a new one, and both parts are worth a chunk. */
  lemma AdaptiveEndIsBoundary(chunk: seq<u32>, k: nat)
    requires AdaptiveEnd(chunk) == Some(k)
    ensures k < |chunk| && |Distinct(chunk[..k])| == 256 && chunk[k] !in chunk[..k]
    ensures forall j: nat | j <= |chunk| :: |Distinct(chunk[..j])| <= 256 <==> j <= k
    ensures k >= 16_640 && |chunk| - k >= 16_384
  {
    LongestIsLongest(chunk, k);
    LongestIsLongest(chunk, k + 1);
    OneMoreDistinct(chunk, k);
    forall j: nat | j <= |chunk| ensures |Distinct(chunk[..j])| <= 256 <==> j <= k { LongestIsLongest(chunk, j); }
  }

  /** When a window is cut, and where: exactly at a new value after 256 distinct ones, when at
      least 16640 values come before it and at least 16384 from it on. */
  lemma AdaptiveEndExactlyWhen(chunk: seq<u32>, j: nat)
    ensures AdaptiveEnd(chunk) == Some(j) <==>
            && j < |chunk| && |Distinct(chunk[..j])| == 256 && chunk[j] !in chunk[..j]
            && j >= 16_640 && |chunk| - j >= 16_384
  {
    hide Distinct;
    if AdaptiveEnd(chunk) == Some(j) {
      AdaptiveEndIsBoundary(chunk, j);
    } else if j < |chunk| && |Distinct(chunk[..j])| == 256 && chunk[j] !in chunk[..j] {
      BoundaryIsLongest(chunk, j);
    }
  }

  /** src/frame.rs:87-109 */
  method ChooseAdaptiveChunkEnd(chunk: seq<u32>) returns (end: Option<nat>)
    ensures end == AdaptiveEnd(chunk)
  {
    var values: seq<u32> := [];
    for index := 0 to |chunk|
      invariant values == Distinct(chunk[..index]) && |values| <= 256
    {
      hide Distinct;
      OneMoreDistinct(chunk, index);
      var value := chunk[index];
      if value in values { continue; }
      if |values| == 256 {
        BoundaryIsLongest(chunk, index);
        var remaining := |chunk| - index;
        return if index >= ADAPTIVE_MIN_ELEMENTS && remaining >= ADAPTIVE_MIN_TAIL then Some(index) else None;
      }
      values := values + [value];
    }
    assert chunk[..|chunk|] == chunk;
    return None;
  }

  /** src/frame.rs:59-85 */
  method ChooseChunkRanges(input: seq<u32>) returns (ranges: seq<Range>)
    ensures ranges == ChunkRanges(input, 0, false)
  {
    hide AdaptiveEnd, NextRange, IsCut, ChunkRanges;
    ranges := [];
    var start: nat, refined := 0, false;
    while start < |input|
      invariant start <= |input|
      invariant ranges + ChunkRanges(input, start, refined) == ChunkRanges(input, 0, false)
    {
      var limit := if refined then REFINED_CHUNK_ELEMENTS else MAX_CHUNK_ELEMENTS;
      var hardEnd := Smaller(|input|, start + limit);
      var adaptive: Option<nat> := None;
      if !refined { adaptive := ChooseAdaptiveChunkEnd(input[start..hardEnd]); }
      var end: nat := if adaptive.Some? then start + adaptive.value else hardEnd;
      NextIs(input, start, refined, adaptive, end);
      TakeRange(input, ranges, start, refined);
      ranges := ranges + [Range(start, end)];
      start := end;
      refined := refined || adaptive.Some?;
    }
    NoMoreRanges(input, ranges, refined);
  }

  lemma TakeRange(input: seq<u32>, ranges: seq<Range>, start: nat, refined: bool)
    requires start < |input|
    ensures var r := NextRange(input, start, refined);
            ranges + ChunkRanges(input, start, refined)
            == (ranges + [r]) + ChunkRanges(input, r.end, refined || IsCut(input, start, refined))
  {
    hide NextRange, IsCut;
  }

  lemma NoMoreRanges(input: seq<u32>, ranges: seq<Range>, refined: bool)
    ensures ranges + ChunkRanges(input, |input|, refined) == ranges
  {
  }

  lemma NextIs(input: seq<u32>, start: nat, refined: bool, adaptive: Option<nat>, end: nat)
    requires start < |input|
    requires adaptive == if refined then None else AdaptiveEnd(Window(input, start, MAX_CHUNK_ELEMENTS))
    requires end == if adaptive.Some? then start + adaptive.value
                    else Smaller(|input|, start + if refined then REFINED_CHUNK_ELEMENTS else MAX_CHUNK_ELEMENTS)
    ensures NextRange(input, start, refined) == Range(start, end) && IsCut(input, start, refined) == adaptive.Some?
  {
    hide AdaptiveEnd;
  }

  // ----- the frame format -----------------------------------------------------

  const MAGIC: bytes := [0x4f, 0x46, 0x5a, 0x4c]
  const VERSION_V1: u8 := 1
  const KIND_U32_FIELD_LZ: u8 := 1
  const TYPE_NUMERIC: u8 := 4

  function Preamble(): (b: bytes)
    ensures |b| == 7
  {
    MAGIC + [VERSION_V1, KIND_U32_FIELD_LZ, TYPE_NUMERIC]
  }

  function PrintFrameHeader(n: nat, chunkCount: nat): bytes {
    Preamble() + (Leb(U32_WIDTH) + (Leb(n) + Leb(chunkCount)))
  }

  function ParseFrameHeader(s: bytes): Result<((nat, nat), bytes)> {
    if |s| < 7 || s[..7] != Preamble() then Err
    else
      var (width, r1) :- ParseVarint(s[7..]);
      if width != U32_WIDTH then Err
      else
        var (n, r2) :- ParseVarint(r1);
        var (chunkCount, r3) :- ParseVarint(r2);
        Ok(((n, chunkCount), r3))
  }

  lemma FrameHeaderRoundTrip(s: bytes, n: nat, chunkCount: nat, rest: bytes)
    ensures ParseFrameHeader(s) == Ok(((n, chunkCount), rest)) <==>
            IsU64(n) && IsU64(chunkCount) && s == PrintFrameHeader(n, chunkCount) + rest
  {
    hide ParseVarint, Leb, Preamble;
    var r2 := Leb(chunkCount) + rest;
    var r1 := Leb(n) + r2;
    var r0 := Leb(U32_WIDTH) + r1;
    assert PrintFrameHeader(n, chunkCount) + rest == Preamble() + r0;
    if IsU64(n) && IsU64(chunkCount) && s == Preamble() + r0 {
      HeaderParses(s, n, chunkCount, rest);
    }
    if ParseFrameHeader(s) == Ok(((n, chunkCount), rest)) {
      HeaderWasPrinted(s, n, chunkCount, rest);
    }
  }

  lemma HeaderParses(s: bytes, n: nat, chunkCount: nat, rest: bytes)
    requires IsU64(n) && IsU64(chunkCount) && s == Preamble() + (Leb(U32_WIDTH) + (Leb(n) + (Leb(chunkCount) + rest)))
    ensures ParseFrameHeader(s) == Ok(((n, chunkCount), rest))
  {
    hide ParseVarint, Leb, Preamble;
    var r2 := Leb(chunkCount) + rest;
    var r1 := Leb(n) + r2;
    assert s[..7] == Preamble() && s[7..] == Leb(U32_WIDTH) + r1;
    VarintBijection(s[7..], U32_WIDTH, r1);
    VarintBijection(r1, n, r2);
    VarintBijection(r2, chunkCount, rest);
  }

  lemma HeaderWasPrinted(s: bytes, n: nat, chunkCount: nat, rest: bytes)
    requires ParseFrameHeader(s) == Ok(((n, chunkCount), rest))
    ensures IsU64(n) && IsU64(chunkCount) && s == Preamble() + (Leb(U32_WIDTH) + (Leb(n) + (Leb(chunkCount) + rest)))
  {
    hide ParseVarint, Leb, Preamble;
    var (_, q1) := ParseVarint(s[7..]).value;
    var (_, q2) := ParseVarint(q1).value;
    assert ParseVarint(s[7..]) == Ok((U32_WIDTH, q1));
    var (m, _) := ParseVarint(q1).value;
    var (c, q3) := ParseVarint(q2).value;
    assert ParseFrameHeader(s) == Ok(((m, c), q3));
    assert m == n && c == chunkCount && q3 == rest;
    VarintBijection(s[7..], U32_WIDTH, q1);
    VarintBijection(q1, n, q2);
    VarintBijection(q2, chunkCount, rest);
    assert s == s[..7] + s[7..];
  }

  // ----- decompression --------------------------------------------------------

  /** `k` chunks in a row, their values joined. */
  function DecodeChunks(z: Codec, s: bytes, k: nat): Result<(seq<u32>, bytes)> {
    if k == 0 then Ok(([], s))
    else
      var (values, rest) :- DecodeChunks(z, s, k - 1);
      var (more, rest') :- DecodeChunk(z, rest);
      Ok((values + more, rest'))
  }

  /** What decompression promises: a header, exactly the chunks it announces with exactly the
      values it announces, and nothing after them. */
  function Decompress(z: Codec, s: bytes): Result<seq<u32>> {
    var ((n, chunkCount), body) :- ParseFrameHeader(s);
    var (values, rest) :- DecodeChunks(z, body, chunkCount);
    if |values| == n && rest == [] then Ok(values) else Err
  }

  lemma {:induction false} DecodeChunksPrefix(z: Codec, s: bytes, j: nat, k: nat)
    requires j <= k && DecodeChunks(z, s, k).Ok?
    ensures DecodeChunks(z, s, j).Ok?
    ensures |DecodeChunks(z, s, j).value.0| <= |DecodeChunks(z, s, k).value.0|
    decreases k
  {
    hide DecodeChunk;
    if j < k { DecodeChunksPrefix(z, s, j, k - 1); }
  }

  lemma DecodedChunkSize(z: Codec, s: bytes)
    requires DecodeChunk(z, s).Ok?
    ensures 1 <= |DecodeChunk(z, s).value.0| <= MAX_CHUNK_ELEMENTS
  {
    hide RunProgram, ParseProgram;
    ChunkFacts.AcceptedLength(z, ParseProgram(s).value.0);
  }

  lemma {:induction false} DecodedCounts(z: Codec, s: bytes, k: nat)
    requires DecodeChunks(z, s, k).Ok?
    ensures k <= |DecodeChunks(z, s, k).value.0| <= k * MAX_CHUNK_ELEMENTS
  {
    hide DecodeChunk;
    if k > 0 {
      DecodedCounts(z, s, k - 1);
      DecodedChunkSize(z, DecodeChunks(z, s, k - 1).value.1);
    }
  }

  /** Every accepted frame holds the number of values it declares, between one and a full
      chunk's worth for each chunk it declares. */
  lemma AcceptedFrameCounts(z: Codec, s: bytes)
    requires Decompress(z, s).Ok?
    ensures var (n, chunkCount) := ParseFrameHeader(s).value.0;
            |Decompress(z, s).value| == n && chunkCount <= n <= chunkCount * MAX_CHUNK_ELEMENTS
  {
    var ((n, chunkCount), body) := ParseFrameHeader(s).value;
    DecodedCounts(z, body, chunkCount);
  }

  // ----- frames are lists of programs -----------------------------------------

  /** What a list of programs yields, one after the other. */
  function RunAllPrograms(z: Codec, ps: seq<Program>): Result<seq<u32>> {
    if ps == [] then Ok([])
    else
      var before :- RunAllPrograms(z, ps[..|ps| - 1]);
      var more :- RunProgram(z, ps[|ps| - 1]);
      Ok(before + more)
  }

  predicate AllFit(ps: seq<Program>) { forall i | 0 <= i < |ps| :: Fits(ps[i]) }

  function PrintPrograms(ps: seq<Program>): bytes {
    if ps == [] then [] else PrintPrograms(ps[..|ps| - 1]) + PrintProgram(ps[|ps| - 1])
  }

  lemma OneMoreProgram(z: Codec, ps: seq<Program>, rest: bytes)
    requires ps != [] && AllFit(ps) && RunAllPrograms(z, ps).Ok?
    requires var init, last := ps[..|ps| - 1], ps[|ps| - 1];
             DecodeChunks(z, PrintPrograms(init) + (PrintProgram(last) + rest), |ps| - 1)
             == Ok((RunAllPrograms(z, init).value, PrintProgram(last) + rest))
    ensures DecodeChunks(z, PrintPrograms(ps) + rest, |ps|) == Ok((RunAllPrograms(z, ps).value, rest))
  {
    hide RunProgram, DecodeChunk, PrintProgram, Fits;
    var init, last := ps[..|ps| - 1], ps[|ps| - 1];
    assert PrintPrograms(ps) + rest == PrintPrograms(init) + (PrintProgram(last) + rest);
    ProgramDecodes(z, last, rest);
  }

  lemma {:induction false} ProgramsDecode(z: Codec, ps: seq<Program>, rest: bytes)
    requires AllFit(ps) && RunAllPrograms(z, ps).Ok?
    ensures DecodeChunks(z, PrintPrograms(ps) + rest, |ps|) == Ok((RunAllPrograms(z, ps).value, rest))
  {
    hide RunProgram, DecodeChunk, PrintProgram, Fits;
    if ps == [] {
      assert [] + rest == rest;
    } else {
      var init, last := ps[..|ps| - 1], ps[|ps| - 1];
      ProgramsDecode(z, init, PrintProgram(last) + rest);
      OneMoreProgram(z, ps, rest);
    }
  }

  lemma ChunkWasProgram(z: Codec, s: bytes) returns (p: Program)
    requires DecodeChunk(z, s).Ok?
    ensures var (values, rest) := DecodeChunk(z, s).value;
            Fits(p) && s == PrintProgram(p) + rest && RunProgram(z, p) == Ok(values)
  {
    hide RunProgram, ParseProgram, PrintProgram, Fits;
    p := ParseProgram(s).value.0;
    ProgramRoundTrip(s, p, ParseProgram(s).value.1);
  }

  lemma ProgramDecodes(z: Codec, p: Program, rest: bytes)
    requires Fits(p) && RunProgram(z, p).Ok?
    ensures DecodeChunk(z, PrintProgram(p) + rest) == Ok((RunProgram(z, p).value, rest))
  {
    hide RunProgram, ParseProgram, PrintProgram, Fits;
    ProgramRoundTrip(PrintProgram(p) + rest, p, rest);
  }

  lemma {:induction false} DecodedWerePrograms(z: Codec, s: bytes, k: nat) returns (ps: seq<Program>)
    requires DecodeChunks(z, s, k).Ok?
    ensures |ps| == k && AllFit(ps)
    ensures RunAllPrograms(z, ps) == Ok(DecodeChunks(z, s, k).value.0)
    ensures s == PrintPrograms(ps) + DecodeChunks(z, s, k).value.1
  {
    hide DecodeChunk, RunProgram, PrintProgram, Fits;
    if k == 0 {
      ps := [];
    } else {
      var init := DecodedWerePrograms(z, s, k - 1);
      var mid := DecodeChunks(z, s, k - 1).value.1;
      var last := ChunkWasProgram(z, mid);
      ps := init + [last];
      assert ps[..k - 1] == init;
      assert s == PrintPrograms(init) + (PrintProgram(last) + DecodeChunks(z, s, k).value.1);
    }
  }

  /** A frame decompresses to `values` exactly when it is the printed form of a list of
      programs that run to `values`: no other byte string is accepted for them. */
  lemma FrameIsPrograms(z: Codec, s: bytes, values: seq<u32>)
    ensures Decompress(z, s) == Ok(values) <==>
            exists ps :: && AllFit(ps) && RunAllPrograms(z, ps) == Ok(values)
                         && IsU64(|values|) && IsU64(|ps|)
                         && s == PrintFrameHeader(|values|, |ps|) + PrintPrograms(ps)
  {
    hide AllFit, RunAllPrograms, PrintPrograms, PrintFrameHeader, ParseFrameHeader, DecodeChunks;
    if Decompress(z, s) == Ok(values) {
      var ((n, chunkCount), body) := ParseFrameHeader(s).value;
      FrameHeaderRoundTrip(s, n, chunkCount, body);
      var ps := DecodedWerePrograms(z, body, chunkCount);
      assert PrintPrograms(ps) + [] == body;
    }
    if ps :| AllFit(ps) && RunAllPrograms(z, ps) == Ok(values) && IsU64(|values|) && IsU64(|ps|)
             && s == PrintFrameHeader(|values|, |ps|) + PrintPrograms(ps) {
      ProgramsDecompress(z, ps, values);
    }
  }

  lemma ProgramsDecompress(z: Codec, ps: seq<Program>, values: seq<u32>)
    requires AllFit(ps) && RunAllPrograms(z, ps) == Ok(values) && IsU64(|values|) && IsU64(|ps|)
    ensures Decompress(z, PrintFrameHeader(|values|, |ps|) + PrintPrograms(ps)) == Ok(values)
  {
    hide AllFit, RunAllPrograms, PrintPrograms, PrintFrameHeader, ParseFrameHeader, DecodeChunks;
    var body := PrintPrograms(ps);
    FrameHeaderRoundTrip(PrintFrameHeader(|values|, |ps|) + body, |values|, |ps|, body);
    ProgramsDecode(z, ps, []);
    assert body + [] == body;
  }

  /** No accepted frame is the beginning of another: trailing bytes are refused, and so is
      a frame cut short. */
  lemma FramesArePrefixFree(z: Codec, s: bytes, extra: bytes)
    requires Decompress(z, s).Ok? && extra != []
    ensures Decompress(z, s + extra).Err?
  {
    hide AllFit, RunAllPrograms, PrintPrograms, PrintFrameHeader, ParseFrameHeader, DecodeChunks;
    var ((n, chunkCount), body) := ParseFrameHeader(s).value;
    FrameHeaderRoundTrip(s, n, chunkCount, body);
    assert s + extra == PrintFrameHeader(n, chunkCount) + (body + extra);
    FrameHeaderRoundTrip(s + extra, n, chunkCount, body + extra);
    var ps := DecodedWerePrograms(z, body, chunkCount);
    assert PrintPrograms(ps) == body;
    ProgramsDecode(z, ps, extra);
    assert DecodeChunks(z, body + extra, chunkCount).value.1 == extra;
  }

  /** src/frame.rs:111-164 */
  method DecompressU32(z: Codec, input: bytes) returns (r: Result<seq<u32>>)
    ensures r == Decompress(z, input)
  {
    hide DecodeChunks, DecodeChunk, ParseVarint;
    var reader := new Reader(input);
    var header := ReadFrameHeader(reader);
    if header.Err? { return Err; }
    var (n, chunkCount) := header.value;
    ghost var body := reader.Rest();
    if (chunkCount == 0) != (n == 0) {
      CountMismatch(z, body, n, chunkCount);
      return Err;
    }
    r := DecompressBody(z, reader, n, chunkCount);
  }

  lemma CountMismatch(z: Codec, body: bytes, n: nat, chunkCount: nat)
    requires (chunkCount == 0) != (n == 0)
    ensures DecodeChunks(z, body, chunkCount).Ok? ==> |DecodeChunks(z, body, chunkCount).value.0| != n
  {
    if DecodeChunks(z, body, chunkCount).Ok? { DecodedCounts(z, body, chunkCount); }
  }

  method ReadFrameHeader(reader: Reader) returns (r: Result<(nat, nat)>)
    requires reader.Valid()
    modifies reader
    ensures reader.Valid()
    ensures match ParseFrameHeader(old(reader.Rest()))
            case Err => r.Err?
            case Ok((h, rest)) => r == Ok(h) && reader.Rest() == rest
  {
    hide ParseVarint;
    ghost var s := reader.Rest();
    var magic := reader.ReadExact(4);
    if magic.Err? { return Err; }
    if magic.value != MAGIC {
      assert |s| >= 7 ==> s[..7][..4] == magic.value && Preamble()[..4] == MAGIC;
      return Err;
    }
    var version := reader.ReadU8();
    if version.Err? { return Err; }
    var kind := reader.ReadU8();
    if kind.Err? { return Err; }
    var outputType := reader.ReadU8();
    if outputType.Err? { return Err; }
    assert s[..7] == magic.value + [version.value, kind.value, outputType.value];
    assert reader.Rest() == s[7..];
    if version.value != VERSION_V1 { return Err; }
    if kind.value != KIND_U32_FIELD_LZ { return Err; }
    if outputType.value != TYPE_NUMERIC { return Err; }
    var width := reader.ReadU64();
    if width.Err? { return Err; }
    if width.value != U32_WIDTH { return Err; }
    var n := reader.ReadU64();
    if n.Err? { return Err; }
    var chunkCount := reader.ReadU64();
    if chunkCount.Err? { return Err; }
    return Ok((n.value, chunkCount.value));
  }

  method DecompressBody(z: Codec, reader: Reader, n: nat, chunkCount: nat) returns (r: Result<seq<u32>>)
    requires reader.Valid()
    modifies reader
    ensures r == match DecodeChunks(z, old(reader.Rest()), chunkCount)
                 case Err => Err
                 case Ok((values, rest)) => if |values| == n && rest == [] then Ok(values) else Err
  {
    hide DecodeChunk;
    ghost var body := reader.Rest();
    var output: seq<u32> := [];
    var total := 0;
    for k := 0 to chunkCount
      invariant reader.Valid() && total == |output| <= n
      invariant DecodeChunks(z, body, k) == Ok((output, reader.Rest()))
    {
      if DecodeChunks(z, body, chunkCount).Ok? { DecodeChunksPrefix(z, body, k + 1, chunkCount); }
      var chunk := ChunkDecoder.DecodeChunkEncoding(z, reader);
      if chunk.Err? { return Err; }
      total := total + |chunk.value|;
      if total > n { return Err; }
      output := output + chunk.value;
    }
    if total != n { return Err; }
    if !reader.IsEof() { return Err; }
    return Ok(output);
  }
}
