/** The greedy hash-table parser of src/field_lz.rs:40-83 and 293-461, as a state
    machine over (position, anchor, table, commands) and as the loop that runs it. */
module FieldLzEncoder {
  import opened Basics
  import opened FieldLz
  import opened FieldLzDecoder

  const MIN_TABLE: nat := 4096
  const MAX_TABLE: nat := 1_048_576

  // ----- the match table ------------------------------------------------------

  function NextPowerOfTwo(n: nat, p: nat): (r: nat)
    requires p > 0
    decreases if n > p then n - p else 0
  {
    if n <= p then p else NextPowerOfTwo(n, 2 * p)
  }

  /** src/field_lz.rs:426-428 */
  function MatchTableSize(inputLen: nat): (size: nat)
    ensures MIN_TABLE <= size <= MAX_TABLE
  {
    var p := NextPowerOfTwo(inputLen, 1);
    if p < MIN_TABLE then MIN_TABLE else if p > MAX_TABLE then MAX_TABLE else p
  }

  /** src/field_lz.rs:430-434. Masking with `size - 1` is reduction modulo `size`, which
      is a power of two (TableSizeIsPowerOfTwo). */
  function HashTwoValues(a: u32, b: u32, size: nat): (h: nat)
    requires size > 0
    ensures h < size
  {
    (a * 0x1_0000_0000 + b) * 0x9e37_79b1_85eb_ca87 % 0x1_0000_0000_0000_0000 % size
  }

  function Pow2(e: nat): (p: nat)
    ensures p > 0
  {
    if e == 0 then 1 else 2 * Pow2(e - 1)
  }

  lemma {:induction false} NextPowerIsPower(n: nat, e: nat) returns (f: nat)
    ensures NextPowerOfTwo(n, Pow2(e)) == Pow2(f)
    decreases if n > Pow2(e) then n - Pow2(e) else 0
  {
    if n <= Pow2(e) {
      f := e;
    } else {
      assert Pow2(e + 1) == 2 * Pow2(e);
      f := NextPowerIsPower(n, e + 1);
    }
  }

  /** Masking by `size - 1` picks a bucket: the table size is a power of two. */
  lemma TableSizeIsPowerOfTwo(inputLen: nat)
    ensures exists e :: MatchTableSize(inputLen) == Pow2(e)
  {
    var e := NextPowerIsPower(inputLen, 0);
    assert Pow2(12) == MIN_TABLE;
    assert Pow2(20) == MAX_TABLE;
  }

  /** Entries hold `position + 1`; zero is empty. */
  class MatchHashTable {
    const entries: array<u32>

    constructor (size: nat)
      requires size > 0
      ensures fresh(entries) && entries.Length == size
      ensures entries[..] == EmptyTable(size)
    {
      entries := new u32[size](_ => 0);
    }

    method Get(index: nat) returns (value: u32)
      requires index < entries.Length
      ensures value == entries[index]
    {
      value := entries[index];
    }

    method Set(index: nat, value: u32)
      requires index < entries.Length
      modifies entries
      ensures entries[..] == old(entries[..])[index := value]
    {
      entries[index] := value;
    }
  }

  type Table = seq<u32>

  function EmptyTable(size: nat): (t: Table)
    ensures |t| == size
  {
    seq(size, _ => 0)
  }

  // ----- one step of the parser -----------------------------------------------

  /** A chunk the encoder accepts. */
  type Chunk = input: seq<u32> | |input| <= MAX_CHUNK_ELEMENTS witness []

  datatype EncoderState = EncoderState(i: nat, anchor: nat, table: Table, commands: seq<Command>)

  function Start(input: Chunk): EncoderState {
    EncoderState(0, 0, EmptyTable(MatchTableSize(|input|)), [])
  }

  /** How far `input` agrees with itself from `candidate` and from `current`, given `len` so far. */
  function MatchLength(input: seq<u32>, candidate: nat, current: nat, len: nat): (r: nat)
    requires candidate <= current && current + len <= |input|
    ensures len <= r && current + r <= |input|
    decreases |input| - current - len
  {
    if current + len < |input| && input[candidate + len] == input[current + len]
    then MatchLength(input, candidate, current, len + 1)
    else len
  }

  /** Insert `pos`, if it lies strictly inside the match and has a successor. */
  function Put(input: Chunk, start: nat, end: nat, table: Table, pos: nat): (t: Table)
    requires table != []
    ensures |t| == |table|
  {
    if start < pos < end && pos + 1 < |input|
    then table[HashTwoValues(input[pos], input[pos + 1], |table|) := pos + 1]
    else table
  }

  function PutEach(input: Chunk, start: nat, end: nat, table: Table, pos: nat, stride: nat): (t: Table)
    requires table != [] && stride > 0
    ensures |t| == |table|
    decreases if end > pos then end - pos else 0
  {
    if pos + 1 < end then PutEach(input, start, end, Put(input, start, end, table, pos), pos + stride, stride) else table
  }

  /** src/field_lz.rs:339-372: short matches seed every interior position but the last,
      long ones the first, every eighth and the last. */
  function SeedTable(input: Chunk, start: nat, end: nat, table: Table): (t: Table)
    requires table != [] && end > 0
    ensures |t| == |table|
  {
    if end - start < 16 then PutEach(input, start, end, table, start + 1, 1)
    else
      var first := Put(input, start, end, table, start + 1);
      var middle := PutEach(input, start, end, first, start + 8, 8);
      Put(input, start, end, middle, end - 1)
  }

  predicate Shaped(input: Chunk, st: EncoderState) {
    st.anchor <= st.i <= |input| && st.table != []
  }

  function Bucket(input: Chunk, st: EncoderState): (h: nat)
    requires Shaped(input, st) && st.i + 1 < |input|
    ensures h < |st.table|
  {
    HashTwoValues(input[st.i], input[st.i + 1], |st.table|)
  }

  /** The match the table offers at the current position, past the guards of the source. */
  function FindMatch(input: Chunk, st: EncoderState): (found: Option<Command>)
    requires Shaped(input, st) && st.i + 1 < |input|
    ensures found.Some? ==> 2 <= found.value.matchLen && st.i + found.value.matchLen <= |input|
    ensures found.Some? ==> found.value.literalLen == st.i - st.anchor
  {
    var entry := st.table[Bucket(input, st)];
    if entry == 0 || entry - 1 >= st.i || st.i - (entry - 1) > MAX_OFFSET_ELEMENTS then None
    else
      var matchLen := MatchLength(input, entry - 1, st.i, 0);
      if matchLen < 2 then None
      else Some(Command(3, st.i - st.anchor, matchLen, st.i - (entry - 1)))
  }

  /** One turn of the parser's loop. */
  function Step(input: Chunk, st: EncoderState): (next: EncoderState)
    requires Shaped(input, st) && st.i + 1 < |input|
    ensures Shaped(input, next) && next.i > st.i && |next.table| == |st.table|
  {
    var table := st.table[Bucket(input, st) := st.i + 1];
    match FindMatch(input, st)
    case None => st.(i := st.i + 1, table := table)
    case Some(c) =>
      var end := st.i + c.matchLen;
      EncoderState(end, end, SeedTable(input, st.i, end, table), st.commands + [c])
  }

  /** Run to the end of the chunk. */
  function Parse(input: Chunk, st: EncoderState): (last: EncoderState)
    requires Shaped(input, st)
    ensures Shaped(input, last)
    decreases |input| - st.i
  {
    if st.i + 1 < |input| then Parse(input, Step(input, st)) else st
  }

  function Commands(input: Chunk): seq<Command> {
    Parse(input, Start(input)).commands
  }

  // ----- what a parse covers --------------------------------------------------

  /** How many values a command list accounts for. */
  function Extent(cs: seq<Command>): nat {
    if cs == [] then 0
    else Extent(cs[..|cs| - 1]) + cs[|cs| - 1].literalLen + cs[|cs| - 1].matchLen
  }

  /** The literals of the commands, in order. */
  function LiteralRuns(input: seq<u32>, cs: seq<Command>): seq<u32>
    requires Extent(cs) <= |input|
  {
    if cs == [] then []
    else
      var from := Extent(cs[..|cs| - 1]);
      LiteralRuns(input, cs[..|cs| - 1]) + input[from..from + cs[|cs| - 1].literalLen]
  }

  /** All literals: those of the commands, and the tail after the last match. */
  function Literals(input: seq<u32>, cs: seq<Command>): seq<u32>
    requires Extent(cs) <= |input|
  {
    LiteralRuns(input, cs) + input[Extent(cs)..]
  }

  /** `c`, with its literals starting at `from`, describes a genuine match: explicit offset
      back into the chunk, at least two values, equal throughout, and as long as can be. */
  predicate GenuineMatch(input: seq<u32>, from: nat, c: Command) {
    var at := from + c.literalLen;
    && c.code == 3 && 1 <= c.offset <= at && c.offset <= MAX_OFFSET_ELEMENTS
    && 2 <= c.matchLen && at + c.matchLen <= |input|
    && (forall k | at <= k < at + c.matchLen :: input[k] == input[k - c.offset])
    && (at + c.matchLen < |input| ==> input[at + c.matchLen] != input[at + c.matchLen - c.offset])
  }

  predicate Describes(input: seq<u32>, cs: seq<Command>)
  {
    cs == [] ||
    (&& Describes(input, cs[..|cs| - 1])
     && GenuineMatch(input, Extent(cs[..|cs| - 1]), cs[|cs| - 1]))
  }

  // ----- the table invariant --------------------------------------------------

  /** Every entry of bucket `h` is one more than an earlier position whose pair hashes to `h`. */
  ghost predicate TableSound(input: seq<u32>, i: nat, table: Table) {
    forall h | 0 <= h < |table| && table[h] != 0 ::
      table[h] <= i && table[h] < |input| && HashTwoValues(input[table[h] - 1], input[table[h]], |table|) == h
  }

  ghost predicate Invariant(input: Chunk, st: EncoderState) {
    && Shaped(input, st)
    && TableSound(input, st.i, st.table)
    && Describes(input, st.commands)
    && Extent(st.commands) == st.anchor
  }

  lemma PutKeeps(input: Chunk, start: nat, end: nat, table: Table, pos: nat)
    requires table != [] && TableSound(input, end, table)
    ensures TableSound(input, end, Put(input, start, end, table, pos))
  {
    hide HashTwoValues;
  }

  lemma {:induction false} PutEachKeeps(input: Chunk, start: nat, end: nat, table: Table, pos: nat, stride: nat)
    requires table != [] && stride > 0 && TableSound(input, end, table)
    ensures TableSound(input, end, PutEach(input, start, end, table, pos, stride))
    decreases if end > pos then end - pos else 0
  {
    hide Put, TableSound;
    if pos + 1 < end {
      PutKeeps(input, start, end, table, pos);
      PutEachKeeps(input, start, end, Put(input, start, end, table, pos), pos + stride, stride);
    }
  }

  /** Sparse seeding after a match keeps the table sound. */
  lemma SeedKeeps(input: Chunk, start: nat, end: nat, table: Table)
    requires table != [] && end > 0 && TableSound(input, end, table)
    ensures TableSound(input, end, SeedTable(input, start, end, table))
  {
    hide Put, PutEach, TableSound;
    if end - start < 16 {
      PutEachKeeps(input, start, end, table, start + 1, 1);
    } else {
      var first := Put(input, start, end, table, start + 1);
      PutKeeps(input, start, end, table, start + 1);
      PutEachKeeps(input, start, end, first, start + 8, 8);
      PutKeeps(input, start, end, PutEach(input, start, end, first, start + 8, 8), end - 1);
    }
  }

  lemma {:induction false} MatchLengthIsMaximal(input: seq<u32>, candidate: nat, current: nat, len: nat)
    requires candidate <= current && current + len <= |input|
    requires forall k | current <= k < current + len :: input[k] == input[k - (current - candidate)]
    ensures var r := MatchLength(input, candidate, current, len);
            && (forall k | current <= k < current + r :: input[k] == input[k - (current - candidate)])
            && (current + r < |input| ==> input[current + r] != input[candidate + r])
    decreases |input| - current - len
  {
    if current + len < |input| && input[candidate + len] == input[current + len] {
      MatchLengthIsMaximal(input, candidate, current, len + 1);
    }
  }

  lemma TableAfterLookup(input: Chunk, st: EncoderState)
    requires Invariant(input, st) && st.i + 1 < |input|
    ensures TableSound(input, st.i + 1, st.table[Bucket(input, st) := st.i + 1])
  {
    hide HashTwoValues;
  }

  lemma FoundIsGenuine(input: Chunk, st: EncoderState)
    requires Invariant(input, st) && st.i + 1 < |input|
    ensures var found := FindMatch(input, st); found.Some? ==> GenuineMatch(input, st.anchor, found.value)
  {
    hide HashTwoValues, TableSound, Describes;
    var entry := st.table[Bucket(input, st)];
    if FindMatch(input, st).Some? {
      MatchLengthIsMaximal(input, entry - 1, st.i, 0);
    }
  }

  /** Every step keeps the invariant, through lookups, literals, matches and seeding. */
  lemma StepKeeps(input: Chunk, st: EncoderState)
    requires Invariant(input, st) && st.i + 1 < |input|
    ensures Invariant(input, Step(input, st))
  {
    hide Bucket, FindMatch, SeedTable, Describes, GenuineMatch, TableSound;
    TableAfterLookup(input, st);
    if FindMatch(input, st).Some? {
      var c := FindMatch(input, st).value;
      var table := st.table[Bucket(input, st) := st.i + 1];
      FoundIsGenuine(input, st);
      MatchSpan(input, st.anchor, c);
      AppendDescribes(input, st.commands, c);
      SoundLater(input, st.i + 1, st.i + c.matchLen, table);
      SeedKeeps(input, st.i, st.i + c.matchLen, table);
    }
  }

  lemma MatchSpan(input: Chunk, from: nat, c: Command)
    requires GenuineMatch(input, from, c)
    ensures from + c.literalLen + c.matchLen <= |input| && c.matchLen >= 2
  {
  }

  lemma SoundLater(input: Chunk, i: nat, j: nat, table: Table)
    requires i <= j && TableSound(input, i, table)
    ensures TableSound(input, j, table)
  {
  }

  lemma AppendDescribes(input: seq<u32>, cs: seq<Command>, c: Command)
    requires Describes(input, cs) && GenuineMatch(input, Extent(cs), c)
    ensures Describes(input, cs + [c]) && Extent(cs + [c]) == Extent(cs) + c.literalLen + c.matchLen
  {
    assert (cs + [c])[..|cs|] == cs;
  }

  /** The invariant holds at every loop head, and so where the parser stops. */
  lemma {:induction false} ParseKeeps(input: Chunk, st: EncoderState)
    requires Invariant(input, st)
    ensures Invariant(input, Parse(input, st))
    decreases |input| - st.i
  {
    if st.i + 1 < |input| {
      StepKeeps(input, st);
      ParseKeeps(input, Step(input, st));
    }
  }

  lemma StartIsSound(input: Chunk)
    ensures Invariant(input, Start(input))
  {
  }

  /** The source's guards on a candidate never turn down a non-empty entry. */
  lemma GuardsNeverReject(input: Chunk, st: EncoderState)
    requires Invariant(input, st) && st.i + 1 < |input|
    ensures var entry := st.table[Bucket(input, st)];
            entry != 0 ==> entry - 1 < st.i && st.i - (entry - 1) <= MAX_OFFSET_ELEMENTS
  {
  }

  /** The greedy parse describes the chunk. */
  lemma CommandsDescribe(input: Chunk)
    ensures Describes(input, Commands(input)) && Extent(Commands(input)) <= |input|
  {
    StartIsSound(input);
    ParseKeeps(input, Start(input));
  }

  // ----- the encoder's output -------------------------------------------------

  /** The side streams of a chunk. */
  function EncodeStreams(input: Chunk): Streams {
    CommandsDescribe(input);
    Emit(Commands(input), Literals(input, Commands(input)))
  }

  method CountMatchLen(input: seq<u32>, candidate: nat, current: nat) returns (len: nat)
    requires candidate <= current <= |input|
    ensures len == MatchLength(input, candidate, current, 0)
  {
    len := 0;
    while current + len < |input| && input[candidate + len] == input[current + len]
      invariant current + len <= |input|
      invariant MatchLength(input, candidate, current, 0) == MatchLength(input, candidate, current, len)
    {
      len := len + 1;
    }
  }

  method PutEntry(input: Chunk, start: nat, end: nat, table: MatchHashTable, pos: nat)
    requires table.entries.Length > 0
    modifies table.entries
    ensures table.entries[..] == Put(input, start, end, old(table.entries[..]), pos)
  {
    hide HashTwoValues;
    if start < pos < end && pos + 1 < |input| {
      var hash := HashTwoValues(input[pos], input[pos + 1], table.entries.Length);
      table.Set(hash, pos + 1);
    }
  }

  method SeedHashTableAfterMatch(input: Chunk, start: nat, end: nat, table: MatchHashTable)
    requires table.entries.Length > 0 && start < end
    modifies table.entries
    ensures table.entries[..] == SeedTable(input, start, end, old(table.entries[..]))
  {
    hide Put;
    if end - start < 16 {
      var pos := start + 1;
      while pos + 1 < end
        invariant PutEach(input, start, end, table.entries[..], pos, 1)
               == PutEach(input, start, end, old(table.entries[..]), start + 1, 1)
      {
        PutEntry(input, start, end, table, pos);
        pos := pos + 1;
      }
    } else {
      PutEntry(input, start, end, table, start + 1);
      ghost var first := table.entries[..];
      var pos := start + 8;
      while pos + 1 < end
        invariant PutEach(input, start, end, table.entries[..], pos, 8) == PutEach(input, start, end, first, start + 8, 8)
      {
        PutEntry(input, start, end, table, pos);
        pos := pos + 8;
      }
      PutEntry(input, start, end, table, end - 1);
    }
  }

  /** The streams with one more command printed onto them. */
  function Appended(out: SideStreams, c: Command): SideStreams {
    SideStreams(
      out.literals,
      out.tokens + PackU16s([TokenOf(c)]),
      out.offsets + PackU32s(OffsetOf(c)),
      out.extraLiteralLengths + PackU32s(ExtraLiteralOf(c)),
      out.extraMatchLengths + PackU32s(ExtraMatchOf(c)))
  }

  /** src/field_lz.rs:293-337, error branches included. */
  method AppendMatchSequence(literalLen: nat, matchLen: nat, offset: nat, out: SideStreams) returns (r: Result<SideStreams>)
    ensures r.Err? <==> offset == 0 || offset > 4_194_303 || matchLen == 0
                        || literalLen >= 15 + U32_LIMIT || matchLen >= 16 + U32_LIMIT
    ensures r.Ok? ==> r.value == Appended(out, Command(3, literalLen, matchLen, offset))
  {
    if offset == 0 || offset > MAX_OFFSET_ELEMENTS { return Err; }
    if matchLen == 0 { return Err; }
    var extraLiteralLengths, extraMatchLengths := out.extraLiteralLengths, out.extraMatchLengths;
    var literalCode := literalLen;
    if literalLen >= 15 {
      if literalLen - 15 >= U32_LIMIT { return Err; }
      extraLiteralLengths := AppendU32s([literalLen - 15], extraLiteralLengths);
      literalCode := 15;
    }
    var matchCode := matchLen - 1;
    if matchLen >= 16 {
      if matchLen - 16 >= U32_LIMIT { return Err; }
      extraMatchLengths := AppendU32s([matchLen - 16], extraMatchLengths);
      matchCode := 15;
    }
    var token: u16 := 3 + 4 * literalCode + 64 * matchCode;
    var offsets := AppendU32s([offset], out.offsets);
    return Ok(SideStreams(out.literals, out.tokens + PackU16s([token]), offsets, extraLiteralLengths, extraMatchLengths));
  }

  /** The streams of the commands so far, before the trailing literals. */
  function SoFar(input: Chunk, cs: seq<Command>): SideStreams
    requires Extent(cs) <= |input|
  {
    Packed(Emit(cs, LiteralRuns(input, cs)))
  }

  lemma SoFarSnoc(input: Chunk, cs: seq<Command>, c: Command)
    requires Extent(cs) + c.literalLen + c.matchLen <= |input|
    ensures Extent(cs + [c]) == Extent(cs) + c.literalLen + c.matchLen
    ensures LiteralRuns(input, cs + [c]) == LiteralRuns(input, cs) + input[Extent(cs)..Extent(cs) + c.literalLen]
    ensures var run := PackU32s(input[Extent(cs)..Extent(cs) + c.literalLen]);
            SoFar(input, cs + [c]) == Appended(SoFar(input, cs).(literals := SoFar(input, cs).literals + run), c)
  {
    hide TokenOf, OffsetOf, ExtraLiteralOf, ExtraMatchOf, PackU32s, PackU16s, Tokens, Offsets, ExtraLiterals, ExtraMatches;
    assert (cs + [c])[..|cs|] == cs;
    EmittedSnoc(cs, c);
    PackU32sAppend(LiteralRuns(input, cs), input[Extent(cs)..Extent(cs) + c.literalLen]);
    PackU16sAppend(Tokens(cs), [TokenOf(c)]);
    PackU32sAppend(Offsets(cs), OffsetOf(c));
    PackU32sAppend(ExtraLiterals(cs), ExtraLiteralOf(c));
    PackU32sAppend(ExtraMatches(cs), ExtraMatchOf(c));
  }

  /** Look the next two values up, remember the current position, and measure the
      candidate: src/field_lz.rs:54-63. */
  method LookUp(input: Chunk, i: nat, anchor: nat, table: MatchHashTable, ghost st: EncoderState) returns (found: Option<Command>)
    requires Shaped(input, st) && i + 1 < |input|
    requires i == st.i && anchor == st.anchor && table.entries[..] == st.table
    modifies table.entries
    ensures found == FindMatch(input, st)
    ensures table.entries[..] == st.table[Bucket(input, st) := i + 1]
  {
    hide HashTwoValues;
    var hash := HashTwoValues(input[i], input[i + 1], table.entries.Length);
    var entry := table.Get(hash);
    table.Set(hash, i + 1);
    if entry != 0 && entry - 1 < i {
      var offset := i - (entry - 1);
      if offset <= MAX_OFFSET_ELEMENTS {
        var matchLen := CountMatchLen(input, entry - 1, i);
        if matchLen >= 2 {
          return Some(Command(3, i - anchor, matchLen, offset));
        }
      }
    }
    return None;
  }

  /** src/field_lz.rs:64-65: the literals before the match, then the match itself. */
  method WriteMatch(input: Chunk, out: SideStreams, c: Command, ghost cs: seq<Command>, anchor: nat, i: nat) returns (r: SideStreams)
    requires c.code == 3 && 1 <= c.offset <= MAX_OFFSET_ELEMENTS
    requires i == anchor + c.literalLen && i + c.matchLen <= |input|
    requires Written(input, cs, anchor, out)
    ensures Written(input, cs + [c], i + c.matchLen, r)
  {
    hide SoFar, Appended, PackU32s, TokenOf, OffsetOf, ExtraLiteralOf, ExtraMatchOf, LiteralRuns;
    SoFarSnoc(input, cs, c);
    var literals := AppendU32s(input[anchor..i], out.literals);
    var appended := AppendMatchSequence(c.literalLen, c.matchLen, c.offset, out.(literals := literals));
    return appended.value;
  }

  /** The body of the encoder's loop: src/field_lz.rs:51-78. */
  method Turn(input: Chunk, i: nat, anchor: nat, table: MatchHashTable, out: SideStreams, ghost st: EncoderState)
    returns (i': nat, anchor': nat, out': SideStreams)
    requires Shaped(input, st) && OnTheWay(input, st) && st.i + 1 < |input|
    requires i == st.i && anchor == st.anchor && table.entries[..] == st.table
    requires Written(input, st.commands, anchor, out)
    modifies table.entries
    ensures var next := Step(input, st);
            && OnTheWay(input, next) && i' == next.i && anchor' == next.anchor && table.entries[..] == next.table
            && Written(input, next.commands, anchor', out')
  {
    hide SeedTable, OnTheWay, FindMatch, Bucket, Written, Step;
    i', anchor', out' := i, anchor, out;
    StepIs(input, st);
    var found := LookUp(input, i, anchor, table, st);
    if found.Some? {
      var c := found.value;
      out' := WriteMatch(input, out, c, st.commands, anchor, i);
      SeedHashTableAfterMatch(input, i, i + c.matchLen, table);
      i' := i + c.matchLen;
      anchor' := i';
    } else {
      i' := i + 1;
    }
  }

  /** Encode: the loop computes the greedy parse and prints it as it goes; a chunk of
      legal size never meets an error. */
  method EncodeU32ToSideStreams(input: seq<u32>) returns (r: Result<SideStreams>)
    ensures |input| > MAX_CHUNK_ELEMENTS ==> r.Err?
    ensures |input| <= MAX_CHUNK_ELEMENTS ==> r == Ok(Packed(EncodeStreams(input)))
  {
    if |input| > MAX_CHUNK_ELEMENTS { return Err; }
    hide OnTheWay, MatchTableSize, PackU32s, EncodeStreams, Packed, Step, Written;
    var size := MatchTableSize(|input|);
    var table := new MatchHashTable(size);
    var out := SideStreams([], [], [], [], []);
    var anchor, i := 0, 0;
    ghost var st := Start(input);
    Begin(input);
    while i + 1 < |input|
      invariant Shaped(input, st) && OnTheWay(input, st)
      invariant i == st.i && anchor == st.anchor && table.entries[..] == st.table
      invariant Written(input, st.commands, anchor, out)
    {
      i, anchor, out := Turn(input, i, anchor, table, out, st);
      st := Step(input, st);
    }
    Finished(input, st, out);
    var literals := AppendU32s(input[anchor..], out.literals);
    return Ok(out.(literals := literals));
  }

  /** The commands so far account for the values before the anchor, and are what is written. */
  predicate Written(input: Chunk, cs: seq<Command>, anchor: nat, out: SideStreams) {
    Extent(cs) == anchor <= |input| && out == SoFar(input, cs)
  }

  /** A state the parser passes through. */
  ghost predicate OnTheWay(input: Chunk, st: EncoderState)
    requires Shaped(input, st)
  {
    Invariant(input, st) && Parse(input, st) == Parse(input, Start(input))
  }

  /** What a match found on the way adds is legal, so printing it meets no error. */
  lemma StepIs(input: Chunk, st: EncoderState)
    requires Shaped(input, st) && OnTheWay(input, st) && st.i + 1 < |input|
    ensures OnTheWay(input, Step(input, st))
    ensures var table, next := st.table[Bucket(input, st) := st.i + 1], Step(input, st);
            match FindMatch(input, st)
            case None => next == EncoderState(st.i + 1, st.anchor, table, st.commands)
            case Some(c) =>
              var end := st.i + c.matchLen;
              next == EncoderState(end, end, SeedTable(input, st.i, end, table), st.commands + [c])
    ensures FindMatch(input, st).Some? ==>
              var c := FindMatch(input, st).value;
              c.code == 3 && 1 <= c.offset <= MAX_OFFSET_ELEMENTS && c.literalLen == st.i - st.anchor
  {
    hide Bucket, SeedTable, TableSound, Describes;
    StepKeeps(input, st);
    FoundIsGenuine(input, st);
  }

  lemma Begin(input: Chunk)
    ensures OnTheWay(input, Start(input)) && Written(input, [], 0, SideStreams([], [], [], [], []))
  {
    StartIsSound(input);
  }

  lemma Finished(input: Chunk, st: EncoderState, out: SideStreams)
    requires Shaped(input, st) && st.i + 1 >= |input| && OnTheWay(input, st)
    requires Written(input, st.commands, st.anchor, out)
    ensures Packed(EncodeStreams(input)) == out.(literals := out.literals + PackU32s(input[st.anchor..]))
  {
    hide PackU32s, LiteralRuns;
    PackU32sAppend(LiteralRuns(input, st.commands), input[st.anchor..]);
  }
}
