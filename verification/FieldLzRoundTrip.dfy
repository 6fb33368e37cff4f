/** Encoding a chunk and decoding its streams gives the chunk back, and what the
    encoder conserves. */
module FieldLzRoundTrip {
  import opened Basics
  import opened FieldLz
  import opened FieldLzDecoder
  import opened FieldLzEncoder

  /** Running a description of `input` rebuilds it, match by match. */
  lemma {:induction false} RunRebuilds(input: seq<u32>, cs: seq<Command>, literals: seq<u32>)
    requires Describes(input, cs) && Extent(cs) <= |input|
    requires LiteralRuns(input, cs) <= literals
    ensures Run(cs, literals).Ok?
    ensures Run(cs, literals).value.output == input[..Extent(cs)]
    ensures Run(cs, literals).value.literalPos == |LiteralRuns(input, cs)|
  {
    if cs != [] {
      var before := cs[..|cs| - 1];
      LiteralsBefore(input, cs, literals);
      RunRebuilds(input, before, literals);
      RunRebuildsStep(input, cs, literals);
    }
  }

  lemma LiteralsBefore(input: seq<u32>, cs: seq<Command>, literals: seq<u32>)
    requires cs != [] && Describes(input, cs) && Extent(cs) <= |input| && LiteralRuns(input, cs) <= literals
    ensures var before, c := cs[..|cs| - 1], cs[|cs| - 1];
            var from, pos := Extent(before), |LiteralRuns(input, before)|;
            && LiteralRuns(input, before) <= literals
            && |LiteralRuns(input, cs)| == pos + c.literalLen <= |literals|
            && literals[pos..pos + c.literalLen] == input[from..from + c.literalLen]
  {
    hide Describes;
    var before, c := cs[..|cs| - 1], cs[|cs| - 1];
    var from := Extent(before);
    RunAfter(LiteralRuns(input, before), input[from..from + c.literalLen], literals);
  }

  lemma RunRebuildsStep(input: seq<u32>, cs: seq<Command>, literals: seq<u32>)
    requires cs != [] && Describes(input, cs) && Extent(cs) <= |input| && LiteralRuns(input, cs) <= literals
    requires var before := cs[..|cs| - 1];
             && Run(before, literals).Ok?
             && Run(before, literals).value.output == input[..Extent(before)]
             && Run(before, literals).value.literalPos == |LiteralRuns(input, before)|
    ensures Run(cs, literals).Ok?
    ensures Run(cs, literals).value.output == input[..Extent(cs)]
    ensures Run(cs, literals).value.literalPos == |LiteralRuns(input, cs)|
  {
    hide GenuineMatch, RunCommand, LiteralRuns;
    LiteralsBefore(input, cs, literals);
    CommandRebuilds(input, Run(cs[..|cs| - 1], literals).value, cs[|cs| - 1], literals);
  }

  lemma RunAfter(a: seq<u32>, b: seq<u32>, whole: seq<u32>)
    requires a + b <= whole
    ensures a <= whole && whole[|a|..|a| + |b|] == b
  {
    assert whole[..|a| + |b|] == a + b;
    assert whole[|a|..|a| + |b|] == (a + b)[|a|..];
  }

  lemma CommandRebuilds(input: seq<u32>, st: LzState, c: Command, literals: seq<u32>)
    requires st.literalPos + c.literalLen <= |literals|
    requires |st.output| + c.literalLen + c.matchLen <= |input|
    requires st.output == input[..|st.output|] && GenuineMatch(input, |st.output|, c)
    requires literals[st.literalPos..st.literalPos + c.literalLen] == input[|st.output|..|st.output| + c.literalLen]
    ensures var at := |st.output| + c.literalLen;
            RunCommand(st, c, literals) ==
            Ok(LzState(st.literalPos + c.literalLen, NextRepeats(st.repeated, c), input[..at + c.matchLen]))
  {
    hide CopyMatch;
    var at := |st.output| + c.literalLen;
    assert st.output + input[|st.output|..at] == input[..at];
    MatchCopies(input, at, c);
  }

  lemma MatchCopies(input: seq<u32>, at: nat, c: Command)
    requires c.literalLen <= at && GenuineMatch(input, at - c.literalLen, c)
    ensures CopyMatch(input[..at], c.offset, c.matchLen) == input[..at + c.matchLen]
  {
    var extended := input[..at + c.matchLen];
    assert extended[..at] == input[..at];
    CopyIsPeriodic(input[..at], c.offset, c.matchLen, extended);
  }

  lemma DescriptionYields(input: seq<u32>, cs: seq<Command>)
    requires Describes(input, cs) && Extent(cs) <= |input|
    ensures Yields(cs, Literals(input, cs), input)
  {
    hide Describes, Run;
    var runs, tail := LiteralRuns(input, cs), input[Extent(cs)..];
    RunRebuilds(input, cs, runs + tail);
    assert (runs + tail)[|runs|..] == tail;
    assert input[..Extent(cs)] + tail == input;
  }

  /** Any description of a chunk, printed to streams, means the chunk. */
  lemma DescriptionMeansInput(input: seq<u32>, cs: seq<Command>)
    requires Describes(input, cs) && Extent(cs) <= |input|
    ensures Meaning(Emit(cs, Literals(input, cs)), |input|) == Ok(input)
  {
    hide Describes, Literals, Yields, Meaning, Emit;
    DescriptionYields(input, cs);
    RunMeans(cs, Literals(input, cs), input);
  }

  /** `b` is the byte form of commands and literals that run to `n` values, and `out` of those values. */
  ghost predicate Codes(b: SideStreams, n: nat, out: bytes, cs: seq<Command>, literals: seq<u32>, values: seq<u32>) {
    && b == Packed(Emit(cs, literals)) && Yields(cs, literals, values)
    && |values| == n && out == PackU32s(values)
  }

  lemma UnpackedRoundTrip(b: SideStreams)
    requires WholeValues(b)
    ensures Packed(Unpacked(b)) == b
  {
    PackUnpack32(b.literals);
    PackUnpack16(b.tokens);
    PackUnpack32(b.offsets);
    PackUnpack32(b.extraLiteralLengths);
    PackUnpack32(b.extraMatchLengths);
  }

  /** Down to the bytes: five streams decode exactly when they are the packed, printed form of a
      command list that runs to the chunk. */
  lemma DecodesExactlyWhen(b: SideStreams, n: nat, out: bytes)
    ensures DecodeSpec(b, n) == Ok(out) <==>
            4 * n < U64_LIMIT && exists cs: seq<Command>, literals, values :: Codes(b, n, out, cs, literals, values)
  {
    hide Meaning, Packed, Unpacked, Emit, Yields, PackU32s, WholeValues;
    if DecodeSpec(b, n) == Ok(out) {
      DecodedIsCoded(b, n, out);
    }
    if 4 * n < U64_LIMIT && exists cs: seq<Command>, literals, values :: Codes(b, n, out, cs, literals, values) {
      var cs: seq<Command>, literals, values :| Codes(b, n, out, cs, literals, values);
      RunMeans(cs, literals, values);
      PackedRoundTrip(Emit(cs, literals));
    }
  }

  lemma DecodedIsCoded(b: SideStreams, n: nat, out: bytes)
    requires DecodeSpec(b, n) == Ok(out)
    ensures exists cs: seq<Command>, literals, values :: Codes(b, n, out, cs, literals, values)
  {
    hide Meaning, Packed, Unpacked, Emit, Yields, PackU32s, WholeValues;
    var s := Unpacked(b);
    var values := Meaning(s, n).value;
    UnpackedRoundTrip(b);
    MeaningIsRun(s, n, values);
    var cs: seq<Command> :| s == Emit(cs, s.literals) && Yields(cs, s.literals, values);
    assert Codes(b, n, out, cs, s.literals, values);
  }

  /** Packed streams decode to what they mean. */
  lemma PackedDecodes(s: Streams, values: Chunk)
    requires Meaning(s, |values|) == Ok(values)
    ensures DecodeSpec(Packed(s), |values|) == Ok(PackU32s(values))
  {
    hide Meaning, Packed, Unpacked, WholeValues;
    PackedRoundTrip(s);
  }

  /** Decoding what the encoder produced restores the chunk's bytes. */
  lemma EncodeDecode(input: Chunk)
    ensures DecodeSpec(Packed(EncodeStreams(input)), |input|) == Ok(PackU32s(input))
  {
    hide Meaning, Packed, DecodeSpec, Describes, Emit, Literals;
    CommandsDescribe(input);
    DescriptionMeansInput(input, Commands(input));
    PackedDecodes(EncodeStreams(input), input);
  }

  lemma NoCommands(input: seq<u32>)
    ensures Describes(input, []) && Extent([]) == 0 && Literals(input, []) == input
  {
    assert [] + input[0..] == input;
  }

  lemma LiteralsAlone(input: seq<u32>)
    ensures Packed(Emit([], input)) == SideStreams(PackU32s(input), [], [], [], [])
  {
  }

  /** A chunk stored as literals alone also decodes to itself. */
  lemma LiteralOnlyDecodes(input: Chunk)
    ensures DecodeSpec(SideStreams(PackU32s(input), [], [], [], []), |input|) == Ok(PackU32s(input))
  {
    hide Meaning, Packed, DecodeSpec, Describes, Emit, Literals;
    NoCommands(input);
    LiteralsAlone(input);
    DescriptionMeansInput(input, []);
    PackedDecodes(Emit([], input), input);
  }

  // ----- conservation ---------------------------------------------------------

  /** How many tokens carry a literal length code of 15, and so owe an extra length. */
  function LongLiteralTokens(tokens: seq<u16>): nat {
    if tokens == [] then 0
    else LongLiteralTokens(tokens[..|tokens| - 1]) + if SplitToken(tokens[|tokens| - 1]).literalCode == 15 then 1 else 0
  }

  function LongMatchTokens(tokens: seq<u16>): nat {
    if tokens == [] then 0
    else LongMatchTokens(tokens[..|tokens| - 1]) + if SplitToken(tokens[|tokens| - 1]).matchCode == 15 then 1 else 0
  }

  lemma {:induction false} ExtrasMatchTokens(cs: seq<Command>)
    ensures |ExtraLiterals(cs)| == LongLiteralTokens(Tokens(cs))
    ensures |ExtraMatches(cs)| == LongMatchTokens(Tokens(cs))
  {
    if cs != [] {
      var before, c := cs[..|cs| - 1], cs[|cs| - 1];
      ExtrasMatchTokens(before);
      hide TokenOf, SplitToken;
      TokenFields(c);
      assert Tokens(cs)[..|cs| - 1] == Tokens(before);
    }
  }

  lemma {:induction false} DescriptionCounts(input: seq<u32>, cs: seq<Command>)
    requires Describes(input, cs) && Extent(cs) <= |input|
    ensures |LiteralRuns(input, cs)| + MatchTotal(cs) == Extent(cs)
    ensures 2 * |cs| <= MatchTotal(cs)
    ensures |Offsets(cs)| == |cs|
  {
    if cs != [] {
      DescriptionCounts(input, cs[..|cs| - 1]);
    }
  }

  /** Nothing is lost or counted twice: literals and match lengths add up to the chunk,
      every token has one offset, every spilled length has its extra, and matches are
      worth at least two values each. */
  lemma EncoderConserves(input: Chunk)
    ensures var s := EncodeStreams(input);
            && |s.literals| + MatchTotal(Commands(input)) == |input|
            && 2 * |s.tokens| <= |input|
            && |s.offsets| == |s.tokens|
            && |s.extraLiteral| == LongLiteralTokens(s.tokens)
            && |s.extraMatch| == LongMatchTokens(s.tokens)
  {
    CommandsDescribe(input);
    DescriptionCounts(input, Commands(input));
    ExtrasMatchTokens(Commands(input));
  }
}
