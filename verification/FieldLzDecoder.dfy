/** The strict FieldLZ decoder of src/field_lz.rs:89-291. */
module FieldLzDecoder {
  import opened Basics
  import opened FieldLz

  /** The side streams as stored: little-endian bytes, in FieldLZ's input order. */
  datatype SideStreams = SideStreams(
    literals: bytes,
    tokens: bytes,
    offsets: bytes,
    extraLiteralLengths: bytes,
    extraMatchLengths: bytes)

  predicate WholeValues(b: SideStreams) {
    && |b.literals| % 4 == 0 && |b.tokens| % 2 == 0 && |b.offsets| % 4 == 0
    && |b.extraLiteralLengths| % 4 == 0 && |b.extraMatchLengths| % 4 == 0
  }

  function Unpacked(b: SideStreams): Streams {
    Streams(UnpackU32s(b.literals), UnpackU16s(b.tokens), UnpackU32s(b.offsets),
            UnpackU32s(b.extraLiteralLengths), UnpackU32s(b.extraMatchLengths))
  }

  function Packed(s: Streams): SideStreams {
    SideStreams(PackU32s(s.literals), PackU16s(s.tokens), PackU32s(s.offsets),
                PackU32s(s.extraLiteral), PackU32s(s.extraMatch))
  }

  lemma PackedRoundTrip(s: Streams)
    ensures WholeValues(Packed(s)) && Unpacked(Packed(s)) == s
  {
    UnpackPack32(s.literals);
    UnpackPack16(s.tokens);
    UnpackPack32(s.offsets);
    UnpackPack32(s.extraLiteral);
    UnpackPack32(s.extraMatch);
  }

  /** What decoding promises: the byte form of the streams' meaning. A chunk length
      whose byte size does not fit 64 bits is refused. */
  function DecodeSpec(b: SideStreams, n: nat): Result<bytes> {
    if n * U32_WIDTH >= U64_LIMIT || !WholeValues(b) then Err
    else
      var values :- Meaning(Unpacked(b), n);
      Ok(PackU32s(values))
  }

  /** If some token fails to resolve, the streams mean nothing. */
  lemma {:induction false} ResolvePrefix(s: Streams, j: nat, k: nat)
    requires j <= k <= |s.tokens| && Resolve(s, k).Ok?
    ensures Resolve(s, j).Ok? && Resolve(s, j).value.0 == Resolve(s, k).value.0[..j]
    decreases k
  {
    var cs := Resolve(s, k).value.0;
    if j < k {
      ResolvePrefix(s, j, k - 1);
      assert cs[..j] == cs[..k - 1][..j];
    } else {
      assert cs[..j] == cs;
    }
  }

  /** The commands of the first `k` tokens, run so far, bound the whole. */
  lemma MeaningNeedsPrefix(s: Streams, n: nat, k: nat)
    requires k <= |s.tokens| && Meaning(s, n).Ok?
    ensures Resolve(s, k).Ok?
    ensures Run(Resolve(s, k).value.0, s.literals).Ok?
    ensures |Run(Resolve(s, k).value.0, s.literals).value.output| <= n
  {
    ResolvePrefix(s, k, |s.tokens|);
    RunPrefix(Resolve(s, |s.tokens|).value.0, s.literals, k);
  }

  /** Decode: the token loop with its four cursors, its repeated offsets and its growing
      output computes the meaning of the streams, and accepts nothing else. */
  method DecodeSideStreams(b: SideStreams, n: nat) returns (r: Result<bytes>)
    ensures r == DecodeSpec(b, n)
  {
    if n * U32_WIDTH >= U64_LIMIT || n * U16_WIDTH >= U64_LIMIT { return Err; }
    if |b.literals| % U32_WIDTH != 0 { return Err; }
    ghost var s := Unpacked(b);
    if Meaning(s, n).Ok? { MeaningBoundsStreams(s, n); }
    if |b.literals| > n * U32_WIDTH { return Err; }
    if |b.tokens| % U16_WIDTH != 0 { return Err; }
    if |b.tokens| > n * U16_WIDTH { return Err; }
    if |b.offsets| % U32_WIDTH != 0 || |b.extraLiteralLengths| % U32_WIDTH != 0 || |b.extraMatchLengths| % U32_WIDTH != 0 {
      return Err;
    }
    var tokenCount := |b.tokens| / U16_WIDTH;
    if |b.offsets| / U32_WIDTH > tokenCount || |b.extraLiteralLengths| / U32_WIDTH > tokenCount
       || |b.extraMatchLengths| / U32_WIDTH > tokenCount {
      return Err;
    }
    var literals := ReadU32s(b.literals);
    var tokens := ReadU16s(b.tokens);
    var offsets := ReadU32s(b.offsets);
    var extraLiteral := ReadU32s(b.extraLiteralLengths);
    var extraMatch := ReadU32s(b.extraMatchLengths);
    var values := DecodeValues(Streams(literals, tokens, offsets, extraLiteral, extraMatch), n);
    if values.Err? { return Err; }
    var packed := AppendU32s(values.value, []);
    assert packed == PackU32s(values.value);
    return Ok(packed);
  }

  lemma RunSnoc(cs: seq<Command>, c: Command, literals: seq<u32>)
    requires Run(cs, literals).Ok?
    ensures Run(cs + [c], literals) == RunCommand(Run(cs, literals).value, c, literals)
  {
    assert (cs + [c])[..|cs|] == cs;
  }

  method ExtendByMatch(before: seq<u32>, offset: nat, matchLen: nat) returns (output: seq<u32>)
    requires 1 <= offset <= |before|
    ensures output == CopyMatch(before, offset, matchLen)
  {
    output := before;
    for j := 0 to matchLen
      invariant output == CopyMatch(before, offset, j)
    {
      output := output + [output[|output| - offset]];
    }
  }

  /** Split one token and fetch what it needs from the offset and extra-length streams. */
  method ReadToken(s: Streams, token: u16, at: Cursors) returns (r: Result<(Command, Cursors)>)
    ensures r == ResolveToken(s, token, at)
  {
    hide SplitToken;
    if token >= 0x400 { return Err; }
    var Fields(offsetCode, literalCode, matchCode) := SplitToken(token);
    var Cursors(offsetPos, extraLiteralPos, extraMatchPos) := at;
    var offset: nat := 0;
    if offsetCode == 3 {
      if offsetPos >= |s.offsets| { return Err; }
      offset := s.offsets[offsetPos];
      offsetPos := offsetPos + 1;
    }
    var literalLen: nat := literalCode;
    if literalCode == 15 {
      if extraLiteralPos >= |s.extraLiteral| { return Err; }
      var extra: nat := s.extraLiteral[extraLiteralPos];
      literalLen := 15 + extra;
      extraLiteralPos := extraLiteralPos + 1;
    }
    var matchLen: nat := 1 + matchCode;
    if matchCode == 15 {
      if extraMatchPos >= |s.extraMatch| { return Err; }
      var extra: nat := s.extraMatch[extraMatchPos];
      matchLen := 16 + extra;
      extraMatchPos := extraMatchPos + 1;
    }
    return Ok((Command(offsetCode, literalLen, matchLen, offset), Cursors(offsetPos, extraLiteralPos, extraMatchPos)));
  }

  /** Offset codes 0 to 2 reuse a recent offset and move it to the front; code 3 pushes its own. */
  method SelectOffset(before: Repeats, command: Command) returns (offset: nat, repeated: Repeats)
    ensures repeated == NextRepeats(before, command) && offset == repeated.first
    ensures before.first > 0 && before.second > 0 && before.third > 0 && offset > 0 ==>
              repeated.second > 0 && repeated.third > 0
  {
    repeated := before;
    match command.code {
      case 0 => offset := repeated.first;
      case 1 =>
        offset := repeated.second;
        repeated := Repeats(repeated.second, repeated.first, repeated.third);
      case 2 =>
        offset := repeated.third;
        repeated := Repeats(repeated.third, repeated.first, repeated.second);
      case _ =>
        offset := command.offset;
        repeated := Repeats(offset, repeated.first, repeated.second);
    }
  }

  /** One command: its literals, its offset checks, the chunk-length check, its match. */
  method Apply(before: LzState, c: Command, literals: seq<u32>, n: nat) returns (r: Result<LzState>)
    requires before.literalPos <= |literals|
    ensures r.Ok? ==> RunCommand(before, c, literals) == r && |r.value.output| <= n
    ensures r.Err? ==> RunCommand(before, c, literals).Err? || |RunCommand(before, c, literals).value.output| > n
  {
    hide NextRepeats, CopyMatch;
    var LzState(literalPos, repeated, output) := before;
    var offset;
    offset, repeated := SelectOffset(repeated, c);

    var literalEnd := literalPos + c.literalLen;
    if literalEnd > |literals| { return Err; }
    output := output + literals[literalPos..literalEnd];
    literalPos := literalEnd;

    if offset == 0 { return Err; }
    if offset > |output| { return Err; }
    if |output| + c.matchLen > n { return Err; }
    output := ExtendByMatch(output, offset, c.matchLen);
    return Ok(LzState(literalPos, repeated, output));
  }

  lemma ResolveSnoc(s: Streams, k: nat)
    requires k < |s.tokens| && Resolve(s, k).Ok?
    ensures var (cs, at) := Resolve(s, k).value;
            match ResolveToken(s, s.tokens[k], at)
            case Err => Resolve(s, k + 1).Err?
            case Ok((c, next)) => Resolve(s, k + 1) == Ok((cs + [c], next))
  {
    hide ResolveToken;
  }

  /** A token that does not resolve, or whose command does not run or overfills the
      chunk, leaves the streams without meaning. */
  lemma DeadEnd(s: Streams, n: nat, k: nat)
    requires k <= |s.tokens|
    requires Resolve(s, k).Err? || Run(Resolve(s, k).value.0, s.literals).Err?
             || |Run(Resolve(s, k).value.0, s.literals).value.output| > n
    ensures Meaning(s, n).Err?
  {
    if Meaning(s, n).Ok? { MeaningNeedsPrefix(s, n, k); }
  }

  method DecodeValues(s: Streams, n: nat) returns (r: Result<seq<u32>>)
    ensures r == Meaning(s, n)
  {
    hide ResolveToken, RunCommand, Resolve, Run;
    var at, st := Cursors(0, 0, 0), START;
    ghost var commands: seq<Command> := [];
    BeforeFirst(s);
    for k := 0 to |s.tokens|
      invariant Resolve(s, k) == Ok((commands, at))
      invariant Run(commands, s.literals) == Ok(st)
    {
      ResolveSnoc(s, k);
      var read := ReadToken(s, s.tokens[k], at);
      if read.Err? {
        DeadEnd(s, n, k + 1);
        return Err;
      }
      RunSnoc(commands, read.value.0, s.literals);
      commands := commands + [read.value.0];
      at := read.value.1;
      var next := Apply(st, read.value.0, s.literals, n);
      if next.Err? {
        DeadEnd(s, n, k + 1);
        return Err;
      }
      st := next.value;
    }
    r := Finish(s, n, at, st);
  }

  lemma BeforeFirst(s: Streams)
    ensures Resolve(s, 0) == Ok(([], Cursors(0, 0, 0))) && Run([], s.literals) == Ok(START)
  {
  }

  /** The left-over literals, and the checks that every stream was used up. */
  method Finish(s: Streams, n: nat, at: Cursors, st: LzState) returns (r: Result<seq<u32>>)
    requires Resolve(s, |s.tokens|).Ok? && Resolve(s, |s.tokens|).value.1 == at
    requires Run(Resolve(s, |s.tokens|).value.0, s.literals) == Ok(st)
    ensures r == Meaning(s, n)
  {
    hide Resolve, Run;
    var trailing := s.literals[st.literalPos..];
    if |st.output| + |trailing| > n { return Err; }
    var output := st.output + trailing;
    if at.offsetPos != |s.offsets| || at.extraLiteralPos != |s.extraLiteral| || at.extraMatchPos != |s.extraMatch|
       || |output| != n {
      return Err;
    }
    return Ok(output);
  }
}
