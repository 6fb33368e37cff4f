/** What the five FieldLZ side streams mean. A parse is a list of commands, each a
    run of literals followed by a match; the streams are the printed form of that
    list plus the literals. Source: src/field_lz.rs. */
module FieldLz {
  import opened Basics

  // ----- commands -------------------------------------------------------------

  datatype RawCommand = Command(code: nat, literalLen: nat, matchLen: nat, offset: nat)

  /** Codes 0 to 2 name a repeated offset; code 3 carries its own. Lengths past the
      four-bit fields spill into 32-bit extras. */
  predicate Legal(c: RawCommand) {
    && c.code < 4 && 1 <= c.matchLen
    && c.literalLen < 15 + U32_LIMIT && c.matchLen < 16 + U32_LIMIT
    && (if c.code == 3 then c.offset < U32_LIMIT else c.offset == 0)
  }

  type Command = c: RawCommand | Legal(c) witness Command(0, 0, 1, 0)

  /** The side streams as values. */
  datatype Streams = Streams(
    literals: seq<u32>,
    tokens: seq<u16>,
    offsets: seq<u32>,
    extraLiteral: seq<u32>,
    extraMatch: seq<u32>)

  function Min(a: nat, b: nat): nat { if a < b then a else b }

  // ----- printing commands ----------------------------------------------------

  function TokenOf(c: Command): u16 {
    c.code + 4 * Min(c.literalLen, 15) + 64 * Min(c.matchLen - 1, 15)
  }

  function OffsetOf(c: Command): seq<u32> { if c.code == 3 then [c.offset] else [] }

  function ExtraLiteralOf(c: Command): seq<u32> { if c.literalLen >= 15 then [c.literalLen - 15] else [] }

  function ExtraMatchOf(c: Command): seq<u32> { if c.matchLen >= 16 then [c.matchLen - 16] else [] }

  function Tokens(cs: seq<Command>): (r: seq<u16>)
    ensures |r| == |cs|
  {
    if cs == [] then [] else Tokens(cs[..|cs| - 1]) + [TokenOf(cs[|cs| - 1])]
  }

  function Offsets(cs: seq<Command>): seq<u32> {
    if cs == [] then [] else Offsets(cs[..|cs| - 1]) + OffsetOf(cs[|cs| - 1])
  }

  function ExtraLiterals(cs: seq<Command>): seq<u32> {
    if cs == [] then [] else ExtraLiterals(cs[..|cs| - 1]) + ExtraLiteralOf(cs[|cs| - 1])
  }

  function ExtraMatches(cs: seq<Command>): seq<u32> {
    if cs == [] then [] else ExtraMatches(cs[..|cs| - 1]) + ExtraMatchOf(cs[|cs| - 1])
  }

  /** The streams of a command list over given literals. */
  function Emit(cs: seq<Command>, literals: seq<u32>): Streams {
    Streams(literals, Tokens(cs), Offsets(cs), ExtraLiterals(cs), ExtraMatches(cs))
  }

  // ----- reading commands back ------------------------------------------------

  datatype Cursors = Cursors(offsetPos: nat, extraLiteralPos: nat, extraMatchPos: nat)

  datatype Fields = Fields(offsetCode: nat, literalCode: nat, matchCode: nat)

  /** Two bits of offset code, four of literal length, four of match length. */
  function SplitToken(token: u16): (f: Fields)
    ensures f.offsetCode < 4 && f.literalCode < 16 && f.matchCode < 16
  {
    Fields(token % 4, token / 4 % 16, token / 64 % 16)
  }

  /** One token: its six high bits are reserved, code 3 takes the next offset, and a
      length code of 15 takes the next extra. */
  function ResolveToken(s: Streams, token: u16, at: Cursors): Result<(Command, Cursors)> {
    var Fields(code, literalCode, matchCode) := SplitToken(token);
    if token >= 0x400
       || (code == 3 && at.offsetPos >= |s.offsets|)
       || (literalCode == 15 && at.extraLiteralPos >= |s.extraLiteral|)
       || (matchCode == 15 && at.extraMatchPos >= |s.extraMatch|)
    then Err
    else
      var command := Command(
        code,
        if literalCode == 15 then 15 + s.extraLiteral[at.extraLiteralPos] else literalCode,
        if matchCode == 15 then 16 + s.extraMatch[at.extraMatchPos] else 1 + matchCode,
        if code == 3 then s.offsets[at.offsetPos] else 0);
      Ok((command, Cursors(
        at.offsetPos + (if code == 3 then 1 else 0),
        at.extraLiteralPos + (if literalCode == 15 then 1 else 0),
        at.extraMatchPos + (if matchCode == 15 then 1 else 0))))
  }

  /** The first `k` tokens: their commands, and where the cursors stand. */
  function Resolve(s: Streams, k: nat): (r: Result<(seq<Command>, Cursors)>)
    requires k <= |s.tokens|
    ensures r.Ok? ==> |r.value.0| == k
  {
    if k == 0 then Ok(([], Cursors(0, 0, 0)))
    else
      var (cs, at) :- Resolve(s, k - 1);
      var (c, next) :- ResolveToken(s, s.tokens[k - 1], at);
      Ok((cs + [c], next))
  }

  // ----- running commands -----------------------------------------------------

  datatype Repeats = Repeats(first: nat, second: nat, third: nat)

  datatype LzState = LzState(literalPos: nat, repeated: Repeats, output: seq<u32>)

  const START := LzState(0, Repeats(1, 2, 4), [])

  /** Move to front; an explicit offset pushes the oldest out. */
  function NextRepeats(r: Repeats, c: Command): Repeats {
    match c.code
    case 0 => r
    case 1 => Repeats(r.second, r.first, r.third)
    case 2 => Repeats(r.third, r.first, r.second)
    case _ => Repeats(c.offset, r.first, r.second)
  }

  /** `len` more values, each the one `offset` places back; a match may overlap itself. */
  function CopyMatch(output: seq<u32>, offset: nat, len: nat): (r: seq<u32>)
    requires 1 <= offset <= |output|
    ensures |r| == |output| + len && output <= r
  {
    if len == 0 then output
    else
      var shorter := CopyMatch(output, offset, len - 1);
      shorter + [shorter[|shorter| - offset]]
  }

  function RunCommand(st: LzState, c: Command, literals: seq<u32>): Result<LzState>
    requires st.literalPos <= |literals|
  {
    var repeated := NextRepeats(st.repeated, c);
    var offset := repeated.first;
    var literalEnd := st.literalPos + c.literalLen;
    if literalEnd > |literals| then Err
    else
      var output := st.output + literals[st.literalPos..literalEnd];
      if offset == 0 || offset > |output| then Err
      else Ok(LzState(literalEnd, repeated, CopyMatch(output, offset, c.matchLen)))
  }

  function Run(cs: seq<Command>, literals: seq<u32>): (r: Result<LzState>)
    ensures r.Ok? ==> r.value.literalPos <= |literals|
  {
    if cs == [] then Ok(START)
    else
      var st :- Run(cs[..|cs| - 1], literals);
      RunCommand(st, cs[|cs| - 1], literals)
  }

  /** The meaning of five streams as a chunk of `n` values: the commands they print,
      run, with the left-over literals at the end. Every entry of every stream is used. */
  function Meaning(s: Streams, n: nat): Result<seq<u32>> {
    var (cs, at) :- Resolve(s, |s.tokens|);
    if at != Cursors(|s.offsets|, |s.extraLiteral|, |s.extraMatch|) then Err
    else
      var st :- Run(cs, s.literals);
      var values := st.output + s.literals[st.literalPos..];
      if |values| == n then Ok(values) else Err
  }

  // ----- streams and command lists determine each other -----------------------

  predicate Within(at: Cursors, s: Streams) {
    at.offsetPos <= |s.offsets| && at.extraLiteralPos <= |s.extraLiteral| && at.extraMatchPos <= |s.extraMatch|
  }

  lemma {:induction false} ResolvedWasEmitted(s: Streams, k: nat)
    requires k <= |s.tokens| && Resolve(s, k).Ok?
    ensures PrintsPrefix(s, k, Resolve(s, k).value.0, Resolve(s, k).value.1)
  {
    if k > 0 {
      ResolvedWasEmitted(s, k - 1);
      ResolvedStep(s, k);
    }
  }

  /** The commands `cs`, and the cursors after them, print to the first `k` tokens. */
  predicate PrintsPrefix(s: Streams, k: nat, cs: seq<Command>, at: Cursors)
    requires k <= |s.tokens|
  {
    && Within(at, s)
    && Tokens(cs) == s.tokens[..k]
    && Offsets(cs) == s.offsets[..at.offsetPos]
    && ExtraLiterals(cs) == s.extraLiteral[..at.extraLiteralPos]
    && ExtraMatches(cs) == s.extraMatch[..at.extraMatchPos]
  }

  lemma ResolvedStep(s: Streams, k: nat)
    requires 1 <= k <= |s.tokens| && Resolve(s, k).Ok?
    requires PrintsPrefix(s, k - 1, Resolve(s, k - 1).value.0, Resolve(s, k - 1).value.1)
    ensures PrintsPrefix(s, k, Resolve(s, k).value.0, Resolve(s, k).value.1)
  {
    hide ResolveToken, TokenOf, OffsetOf, ExtraLiteralOf, ExtraMatchOf;
    var (cs, before) := Resolve(s, k - 1).value;
    var (c, at) := ResolveToken(s, s.tokens[k - 1], before).value;
    ResolvedToken(s, s.tokens[k - 1], before);
    assert s.tokens[..k] == s.tokens[..k - 1] + [s.tokens[k - 1]];
    EmittedSnoc(cs, c);
  }

  lemma ResolvedToken(s: Streams, token: u16, before: Cursors)
    requires Within(before, s) && ResolveToken(s, token, before).Ok?
    ensures var (c, at) := ResolveToken(s, token, before).value;
            && Within(at, s)
            && TokenOf(c) == token
            && s.offsets[..at.offsetPos] == s.offsets[..before.offsetPos] + OffsetOf(c)
            && s.extraLiteral[..at.extraLiteralPos] == s.extraLiteral[..before.extraLiteralPos] + ExtraLiteralOf(c)
            && s.extraMatch[..at.extraMatchPos] == s.extraMatch[..before.extraMatchPos] + ExtraMatchOf(c)
  {
    hide SplitToken;
    TokenSplits(token);
  }

  lemma TokenSplits(token: u16)
    ensures var f := SplitToken(token);
            token < 0x400 ==> token == f.offsetCode + 4 * f.literalCode + 64 * f.matchCode
  {
  }

  lemma TokenFields(c: Command)
    ensures TokenOf(c) < 0x400
    ensures SplitToken(TokenOf(c)) == Fields(c.code, Min(c.literalLen, 15), Min(c.matchLen - 1, 15))
  {
    ThreeFields(c.code, Min(c.literalLen, 15), Min(c.matchLen - 1, 15));
  }

  lemma ThreeFields(a: nat, b: nat, c: nat)
    requires a < 4 && b < 16 && c < 16
    ensures var t := a + 4 * b + 64 * c;
            t % 4 == a && t / 4 % 16 == b && t / 64 % 16 == c
  {
    var t := a + 4 * b + 64 * c;
    assert t / 4 == b + 16 * c;
    assert t / 64 == c;
  }

  lemma {:induction false} EmittedPrefix(cs: seq<Command>, k: nat)
    requires k <= |cs|
    ensures Tokens(cs[..k]) == Tokens(cs)[..k]
    ensures Offsets(cs[..k]) <= Offsets(cs)
    ensures ExtraLiterals(cs[..k]) <= ExtraLiterals(cs)
    ensures ExtraMatches(cs[..k]) <= ExtraMatches(cs)
    decreases |cs|
  {
    if k == |cs| {
      assert cs[..k] == cs;
    } else {
      var init := cs[..|cs| - 1];
      assert init[..k] == cs[..k];
      EmittedPrefix(init, k);
    }
  }

  /** Where the cursors stand after the first `k` commands of `cs`. */
  function CursorsAt(cs: seq<Command>, k: nat): Cursors
    requires k <= |cs|
  {
    Cursors(|Offsets(cs[..k])|, |ExtraLiterals(cs[..k])|, |ExtraMatches(cs[..k])|)
  }

  lemma {:induction false} EmittedResolves(cs: seq<Command>, literals: seq<u32>, k: nat)
    requires k <= |cs|
    ensures Resolve(Emit(cs, literals), k) == Ok((cs[..k], CursorsAt(cs, k)))
  {
    if k == 0 {
      assert cs[..0] == [];
    } else {
      hide ResolveToken, Offsets, ExtraLiterals, ExtraMatches;
      assert cs[..k] == cs[..k - 1] + [cs[k - 1]];
      EmittedResolves(cs, literals, k - 1);
      EmittedStep(cs, literals, k);
    }
  }

  lemma EmittedStep(cs: seq<Command>, literals: seq<u32>, k: nat)
    requires 1 <= k <= |cs|
    ensures ResolveToken(Emit(cs, literals), Tokens(cs)[k - 1], CursorsAt(cs, k - 1)) == Ok((cs[k - 1], CursorsAt(cs, k)))
  {
    hide ResolveToken, TokenOf, OffsetOf, ExtraLiteralOf, ExtraMatchOf, Tokens, Offsets, ExtraLiterals, ExtraMatches;
    TokenNext(cs, k);
    OffsetNext(cs, k);
    ExtraLiteralNext(cs, k);
    ExtraMatchNext(cs, k);
    EmittedToken(Emit(cs, literals), cs[k - 1], CursorsAt(cs, k - 1));
  }

  lemma TokenNext(cs: seq<Command>, k: nat)
    requires 1 <= k <= |cs|
    ensures Tokens(cs)[k - 1] == TokenOf(cs[k - 1])
  {
    hide TokenOf, Offsets, ExtraLiterals, ExtraMatches;
    EmittedPrefix(cs, k);
    assert Tokens(cs)[k - 1] == Tokens(cs)[..k][k - 1];
  }

  lemma OffsetNext(cs: seq<Command>, k: nat)
    requires 1 <= k <= |cs|
    ensures var c, at := cs[k - 1], |Offsets(cs[..k - 1])|;
            && |Offsets(cs[..k])| == at + |OffsetOf(c)| <= |Offsets(cs)|
            && (c.code == 3 ==> Offsets(cs)[at] == c.offset)
  {
    EmittedPrefix(cs, k);
    assert cs[..k][..k - 1] == cs[..k - 1];
  }

  lemma ExtraLiteralNext(cs: seq<Command>, k: nat)
    requires 1 <= k <= |cs|
    ensures var c, at := cs[k - 1], |ExtraLiterals(cs[..k - 1])|;
            && |ExtraLiterals(cs[..k])| == at + |ExtraLiteralOf(c)| <= |ExtraLiterals(cs)|
            && (c.literalLen >= 15 ==> ExtraLiterals(cs)[at] == c.literalLen - 15)
  {
    EmittedPrefix(cs, k);
    assert cs[..k][..k - 1] == cs[..k - 1];
  }

  lemma ExtraMatchNext(cs: seq<Command>, k: nat)
    requires 1 <= k <= |cs|
    ensures var c, at := cs[k - 1], |ExtraMatches(cs[..k - 1])|;
            && |ExtraMatches(cs[..k])| == at + |ExtraMatchOf(c)| <= |ExtraMatches(cs)|
            && (c.matchLen >= 16 ==> ExtraMatches(cs)[at] == c.matchLen - 16)
  {
    EmittedPrefix(cs, k);
    assert cs[..k][..k - 1] == cs[..k - 1];
  }

  /** One more command appends its token, and what it needs of the others, at the end of each stream. */
  lemma EmittedSnoc(cs: seq<Command>, c: Command)
    ensures Tokens(cs + [c]) == Tokens(cs) + [TokenOf(c)]
    ensures Offsets(cs + [c]) == Offsets(cs) + OffsetOf(c)
    ensures ExtraLiterals(cs + [c]) == ExtraLiterals(cs) + ExtraLiteralOf(c)
    ensures ExtraMatches(cs + [c]) == ExtraMatches(cs) + ExtraMatchOf(c)
  {
    assert (cs + [c])[..|cs|] == cs;
  }

  lemma EmittedToken(s: Streams, c: Command, before: Cursors)
    requires before.offsetPos + |OffsetOf(c)| <= |s.offsets|
    requires before.extraLiteralPos + |ExtraLiteralOf(c)| <= |s.extraLiteral|
    requires before.extraMatchPos + |ExtraMatchOf(c)| <= |s.extraMatch|
    requires c.code == 3 ==> s.offsets[before.offsetPos] == c.offset
    requires c.literalLen >= 15 ==> s.extraLiteral[before.extraLiteralPos] == c.literalLen - 15
    requires c.matchLen >= 16 ==> s.extraMatch[before.extraMatchPos] == c.matchLen - 16
    ensures ResolveToken(s, TokenOf(c), before) ==
            Ok((c, Cursors(before.offsetPos + |OffsetOf(c)|, before.extraLiteralPos + |ExtraLiteralOf(c)|,
                           before.extraMatchPos + |ExtraMatchOf(c)|)))
  {
    hide SplitToken, TokenOf;
    TokenFields(c);
  }

  /** A stream quintuple resolves to a command list and is used up by it exactly when
      it is that list's printed form. */
  lemma StreamsAreCommands(s: Streams, cs: seq<Command>)
    ensures s == Emit(cs, s.literals) <==>
            |cs| == |s.tokens|
            && Resolve(s, |s.tokens|) == Ok((cs, Cursors(|s.offsets|, |s.extraLiteral|, |s.extraMatch|)))
  {
    if s == Emit(cs, s.literals) {
      EmittedResolves(cs, s.literals, |cs|);
      assert cs[..|cs|] == cs;
    }
    if |cs| == |s.tokens| && Resolve(s, |s.tokens|) == Ok((cs, Cursors(|s.offsets|, |s.extraLiteral|, |s.extraMatch|))) {
      ResolvedWasEmitted(s, |s.tokens|);
      assert s.tokens[..|s.tokens|] == s.tokens && s.offsets[..|s.offsets|] == s.offsets;
      assert s.extraLiteral[..|s.extraLiteral|] == s.extraLiteral && s.extraMatch[..|s.extraMatch|] == s.extraMatch;
    }
  }

  lemma RunMeans(cs: seq<Command>, literals: seq<u32>, values: seq<u32>)
    requires Yields(cs, literals, values)
    ensures Meaning(Emit(cs, literals), |values|) == Ok(values)
  {
    StreamsAreCommands(Emit(cs, literals), cs);
  }

  /** Streams decode to `values` exactly when some command list prints to them and
      runs to `values`. */
  lemma MeaningIsRun(s: Streams, n: nat, values: seq<u32>)
    ensures Meaning(s, n) == Ok(values) <==>
            |values| == n
            && exists cs: seq<Command> :: s == Emit(cs, s.literals) && Yields(cs, s.literals, values)
  {
    if Meaning(s, n) == Ok(values) {
      var cs := Resolve(s, |s.tokens|).value.0;
      StreamsAreCommands(s, cs);
      assert s == Emit(cs, s.literals) && Yields(cs, s.literals, values);
    }
    if |values| == n && exists cs: seq<Command> :: s == Emit(cs, s.literals) && Yields(cs, s.literals, values) {
      var cs: seq<Command> :| s == Emit(cs, s.literals) && Yields(cs, s.literals, values);
      StreamsAreCommands(s, cs);
    }
  }

  predicate Yields(cs: seq<Command>, literals: seq<u32>, values: seq<u32>) {
    match Run(cs, literals)
    case Err => false
    case Ok(st) => values == st.output + literals[st.literalPos..]
  }

  // ----- facts about running --------------------------------------------------

  /** The repeated offsets as a list, most recent first. */
  function Recent(r: Repeats): seq<nat> { [r.first, r.second, r.third] }

  /** A command copies from the first offset of its new list. A code below 3 takes the offset
      of that number to the front and leaves the other two in order; code 3 puts its own in front
      and forgets the oldest. */
  lemma MoveToFront(r: Repeats, c: Command)
    ensures var was, now := Recent(r), Recent(NextRepeats(r, c));
            if c.code < 3 then now == [was[c.code]] + was[..c.code] + was[c.code + 1..]
            else now == [c.offset] + was[..2]
  {
    var was := Recent(r);
    if c.code == 1 {
      assert was[..1] == [r.first] && was[2..] == [r.third];
    } else if c.code == 2 {
      assert was[..2] == [r.first, r.second] && was[3..] == [];
    } else if c.code == 0 {
      assert was[..0] == [] && was[1..] == [r.second, r.third];
    } else {
      assert was[..2] == [r.first, r.second];
    }
  }

  /** The streams of one command over all the literals. */
  function OneToken(literals: seq<u32>, code: nat, offset: u32, matchLen: nat): (s: Streams)
    requires code < 4 && 1 <= matchLen < 16 + U32_LIMIT && |literals| < 15 + U32_LIMIT
  {
    Streams(literals,
            [code + 4 * (if |literals| < 15 then |literals| else 15) + 64 * (if matchLen < 16 then matchLen - 1 else 15)],
            if code == 3 then [offset] else [],
            if |literals| < 15 then [] else [|literals| - 15],
            if matchLen < 16 then [] else [matchLen - 16])
  }

  /** Which offset a first token uses. */
  function FirstOffset(code: nat, offset: u32): nat
    requires code < 4
  {
    if code == 3 then offset else [1, 2, 4][code]
  }

  /** A chunk of one token decodes to its literals and `matchLen` values copied from 1, 2 or 4 back,
      or from where it says; and not at all when that is nowhere. */
  lemma OneTokenMeans(literals: seq<u32>, code: nat, offset: u32, matchLen: nat)
    requires code < 4 && 1 <= matchLen < 16 + U32_LIMIT && |literals| < 15 + U32_LIMIT
    ensures var from := FirstOffset(code, offset);
            Meaning(OneToken(literals, code, offset, matchLen), |literals| + matchLen)
            == if 1 <= from <= |literals| then Ok(CopyMatch(literals, from, matchLen)) else Err
  {
    hide Meaning, CopyMatch;
    var c: Command := Command(code, |literals|, matchLen, if code == 3 then offset else 0);
    OneEmitted(c, literals, offset);
    OneRun(c, literals);
    StreamsAreCommands(Emit([c], literals), [c]);
    OneMeaning(c, literals, |literals| + matchLen);
  }

  lemma OneEmitted(c: Command, literals: seq<u32>, offset: u32)
    requires c.literalLen == |literals| && (c.code == 3 ==> c.offset == offset)
    ensures Emit([c], literals) == OneToken(literals, c.code, offset, c.matchLen)
  {
    OneCommand(c);
    hide Tokens, Offsets, ExtraLiterals, ExtraMatches;
  }

  lemma OneCommand(c: Command)
    ensures Tokens([c]) == [TokenOf(c)] && Offsets([c]) == OffsetOf(c)
    ensures ExtraLiterals([c]) == ExtraLiteralOf(c) && ExtraMatches([c]) == ExtraMatchOf(c)
  {
    hide TokenOf, OffsetOf, ExtraLiteralOf, ExtraMatchOf;
    assert [c][..0] == [];
  }

  lemma OneRun(c: Command, literals: seq<u32>)
    ensures Run([c], literals) == RunCommand(START, c, literals)
  {
    hide RunCommand;
    assert [c][..0] == [];
  }

  /** A first command uses offset 1, 2, 4 or its own, and all the literals are before its match. */
  lemma FirstCommand(c: Command, literals: seq<u32>)
    requires c.literalLen == |literals|
    ensures var from, r := FirstOffset(c.code, c.offset), RunCommand(START, c, literals);
            if 1 <= from <= |literals| then r.Ok? && FirstState(r.value, c, literals, from) else r.Err?
  {
    hide CopyMatch, NextRepeats, FirstOffset;
    FirstIsFirst(c);
    assert START.output + literals[START.literalPos..START.literalPos + c.literalLen] == literals;
  }

  predicate FirstState(st: LzState, c: Command, literals: seq<u32>, from: nat)
    requires 1 <= from <= |literals|
  {
    st.literalPos == |literals| && st.output == CopyMatch(literals, from, c.matchLen)
  }

  lemma FirstIsFirst(c: Command)
    ensures NextRepeats(START.repeated, c).first == FirstOffset(c.code, c.offset)
  {
  }

  lemma OneMeaning(c: Command, literals: seq<u32>, n: nat)
    requires c.literalLen == |literals| && n == |literals| + c.matchLen
    requires Run([c], literals) == RunCommand(START, c, literals)
    requires var s := Emit([c], literals);
             Resolve(s, |s.tokens|) == Ok(([c], Cursors(|s.offsets|, |s.extraLiteral|, |s.extraMatch|)))
    ensures var from := FirstOffset(c.code, c.offset);
            Meaning(Emit([c], literals), n)
            == if 1 <= from <= |literals| then Ok(CopyMatch(literals, from, c.matchLen)) else Err
  {
    hide Resolve, Run, RunCommand, CopyMatch, FirstOffset, NextRepeats;
    FirstCommand(c, literals);
    var from := FirstOffset(c.code, c.offset);
    if 1 <= from <= |literals| {
      var st := Run([c], literals).value;
      assert st.output + literals[st.literalPos..] == CopyMatch(literals, from, c.matchLen);
    }
  }

  /** Four literals and a match of one value, by each of the four codes. */
  lemma DecodedExamples()
    ensures Meaning(Streams([7, 8, 9, 10], [0x0010], [], [], []), 5) == Ok([7, 8, 9, 10, 10])
    ensures Meaning(Streams([7, 8, 9, 10], [0x0011], [], [], []), 5) == Ok([7, 8, 9, 10, 9])
    ensures Meaning(Streams([7, 8, 9, 10], [0x0012], [], [], []), 5) == Ok([7, 8, 9, 10, 7])
    ensures Meaning(Streams([7, 8, 9, 10], [0x0013], [3], [], []), 5) == Ok([7, 8, 9, 10, 8])
  {
    hide Meaning, CopyMatch;
    var literals: seq<u32> := [7, 8, 9, 10];
    OneTokenMeans(literals, 0, 0, 1);
    OneTokenMeans(literals, 1, 0, 1);
    OneTokenMeans(literals, 2, 0, 1);
    OneTokenMeans(literals, 3, 3, 1);
    CopyOne(literals, 1);
    CopyOne(literals, 2);
    CopyOne(literals, 4);
    CopyOne(literals, 3);
    assert literals + [10] == [7, 8, 9, 10, 10] && literals + [9] == [7, 8, 9, 10, 9];
    assert literals + [7] == [7, 8, 9, 10, 7] && literals + [8] == [7, 8, 9, 10, 8];
  }

  lemma CopyOne(output: seq<u32>, offset: nat)
    requires 1 <= offset <= |output|
    ensures CopyMatch(output, offset, 1) == output + [output[|output| - offset]]
  {
    assert CopyMatch(output, offset, 0) == output;
  }

  ghost predicate Periodic(output: seq<u32>, offset: nat, r: seq<u32>)
    requires 1 <= offset <= |output|
  {
    output <= r && forall k | |output| <= k < |r| :: r[k] == r[k - offset]
  }

  /** A match is the periodic extension of what was there: each new value equals the one
      `offset` places back, even when that one is itself new, and nothing else of that
      length does. */
  lemma {:induction false} CopyIsPeriodic(output: seq<u32>, offset: nat, len: nat, r: seq<u32>)
    requires 1 <= offset <= |output|
    ensures r == CopyMatch(output, offset, len) <==> |r| == |output| + len && Periodic(output, offset, r)
    decreases len
  {
    if |r| == |output| + len {
      if len == 0 {
        assert output <= r <==> r == output;
      } else {
        var shorter, last := r[..|r| - 1], r[|r| - 1];
        assert r == shorter + [last];
        CopyIsPeriodic(output, offset, len - 1, shorter);
        PeriodicSnoc(output, offset, shorter, last);
      }
    }
  }

  lemma PeriodicSnoc(output: seq<u32>, offset: nat, r: seq<u32>, last: u32)
    requires 1 <= offset <= |output| <= |r|
    ensures Periodic(output, offset, r + [last]) <==> Periodic(output, offset, r) && last == r[|r| - offset]
  {
    var longer := r + [last];
    if Periodic(output, offset, longer) {
      assert longer[..|output|] == r[..|output|];
      forall k | |output| <= k < |r| ensures r[k] == r[k - offset] {
        assert longer[k] == longer[k - offset];
      }
      assert longer[|r|] == longer[|r| - offset];
    }
  }

  lemma {:induction false} RunPrefix(cs: seq<Command>, literals: seq<u32>, k: nat)
    requires k <= |cs| && Run(cs, literals).Ok?
    ensures Run(cs[..k], literals).Ok?
    ensures |Run(cs[..k], literals).value.output| <= |Run(cs, literals).value.output|
    decreases |cs|
  {
    if k == |cs| {
      assert cs[..k] == cs;
    } else {
      assert cs[..|cs| - 1][..k] == cs[..k];
      RunPrefix(cs[..|cs| - 1], literals, k);
    }
  }

  /** Whenever the program has run so far, all three repeated offsets are usable. */
  lemma {:induction false} RepeatsStayNonZero(cs: seq<Command>, literals: seq<u32>)
    requires Run(cs, literals).Ok?
    ensures var r := Run(cs, literals).value.repeated; r.first > 0 && r.second > 0 && r.third > 0
  {
    if cs != [] {
      RepeatsStayNonZero(cs[..|cs| - 1], literals);
    }
  }

  function MatchTotal(cs: seq<Command>): nat {
    if cs == [] then 0 else MatchTotal(cs[..|cs| - 1]) + cs[|cs| - 1].matchLen
  }

  /** Every output value is a literal or a matched one, and every command yields at least one. */
  lemma {:induction false} RunLength(cs: seq<Command>, literals: seq<u32>)
    requires Run(cs, literals).Ok?
    ensures var st := Run(cs, literals).value;
            |st.output| == st.literalPos + MatchTotal(cs) && MatchTotal(cs) >= |cs|
  {
    if cs != [] {
      RunLength(cs[..|cs| - 1], literals);
    }
  }

  lemma {:induction false} EmittedCounts(cs: seq<Command>)
    ensures |Offsets(cs)| <= |cs| && |ExtraLiterals(cs)| <= |cs| && |ExtraMatches(cs)| <= |cs|
  {
    if cs != [] {
      EmittedCounts(cs[..|cs| - 1]);
    }
  }

  /** Streams that mean anything pass the decoder's size checks up front. */
  lemma MeaningBoundsStreams(s: Streams, n: nat)
    requires Meaning(s, n).Ok?
    ensures |s.literals| <= n && |s.tokens| <= n
    ensures |s.offsets| <= |s.tokens| && |s.extraLiteral| <= |s.tokens| && |s.extraMatch| <= |s.tokens|
  {
    var cs := Resolve(s, |s.tokens|).value.0;
    StreamsAreCommands(s, cs);
    EmittedCounts(cs);
    RunLength(cs, s.literals);
  }
}
