/** The encounter-order dictionary of src/literal_dict.rs. */
module LiteralDict {
  import opened Basics

  // ----- first-occurrence order -----------------------------------------------

  /** The distinct values, each where it first occurs. */
  function Distinct(values: seq<u32>): (d: seq<u32>)
    ensures |d| <= |values|
    ensures forall v: u32 :: v in d <==> v in values
  {
    if values == [] then []
    else
      var before, v := Distinct(values[..|values| - 1]), values[|values| - 1];
      assert values == values[..|values| - 1] + [v];
      if v in before then before else before + [v]
  }

  function IndexOf(d: seq<u32>, v: u32): (i: nat)
    requires v in d
    ensures i < |d| && d[i] == v
  {
    if d[0] == v then 0 else 1 + IndexOf(d[1..], v)
  }

  /** For every value, its place in the dictionary. */
  function Indexes(values: seq<u32>): (ix: seq<nat>)
    ensures |ix| == |values|
  {
    if values == [] then [] else Indexes(values[..|values| - 1]) + [IndexOf(Distinct(values), values[|values| - 1])]
  }

  lemma {:induction false} DistinctNoDuplicates(values: seq<u32>)
    ensures forall i, j | 0 <= i < j < |Distinct(values)| :: Distinct(values)[i] != Distinct(values)[j]
  {
    if values != [] {
      DistinctNoDuplicates(values[..|values| - 1]);
    }
  }

  /** The dictionary of a prefix is a prefix of the dictionary: entries come in order of
      first occurrence and never move. */
  lemma {:induction false} DistinctPrefix(values: seq<u32>, k: nat)
    requires k <= |values|
    ensures Distinct(values[..k]) <= Distinct(values)
    decreases |values|
  {
    if k == |values| {
      assert values[..k] == values;
    } else {
      assert values[..|values| - 1][..k] == values[..k];
      DistinctPrefix(values[..|values| - 1], k);
    }
  }

  lemma {:induction false} IndexInPrefix(d: seq<u32>, whole: seq<u32>, v: u32)
    requires v in d && d <= whole
    ensures IndexOf(whole, v) == IndexOf(d, v)
  {
    if d[0] != v {
      IndexInPrefix(d[1..], whole[1..], v);
    }
  }

  // ----- code streams ---------------------------------------------------------

  /** One index as a code of one byte, or of two little-endian bytes, truncating as the source does. */
  function CodeBytes(width: nat, index: nat): (b: bytes)
    requires width == 1 || width == 2
    ensures |b| == width
  {
    if width == 1 then [index % U8_LIMIT] else PackU16s([index % U16_LIMIT])
  }

  function CodeStream(width: nat, ix: seq<nat>): (b: bytes)
    requires width == 1 || width == 2
    ensures |b| == width * |ix|
  {
    if ix == [] then [] else CodeStream(width, ix[..|ix| - 1]) + CodeBytes(width, ix[|ix| - 1])
  }

  function ReadCodes(width: nat, b: bytes): seq<nat>
    requires width == 1 || width == 2
  {
    if width == 1 then b else UnpackU16s(b)
  }

  function CodeLimit(width: nat): nat
    requires width == 1 || width == 2
  {
    if width == 1 then U8_LIMIT else U16_LIMIT
  }

  lemma OneCode(width: nat, index: nat)
    requires width == 1 || width == 2
    requires index < CodeLimit(width)
    ensures ReadCodes(width, CodeBytes(width, index)) == [index]
  {
    if width == 2 { UnpackPack16([index]); }
  }

  lemma CodesAppend(width: nat, a: bytes, b: bytes)
    requires (width == 1 || width == 2) && |a| % width == 0
    ensures ReadCodes(width, a + b) == ReadCodes(width, a) + ReadCodes(width, b)
  {
    if width == 2 { UnpackU16sAppend(a, b); }
  }

  /** Narrowing is lossless while every index is below the code's range. */
  lemma {:induction false} ReadWrittenCodes(width: nat, ix: seq<nat>)
    requires width == 1 || width == 2
    requires forall i | 0 <= i < |ix| :: ix[i] < CodeLimit(width)
    ensures ReadCodes(width, CodeStream(width, ix)) == ix
  {
    if ix == [] {
      assert ReadCodes(width, []) == [];
    } else {
      hide CodeBytes, ReadCodes;
      var init, last := ix[..|ix| - 1], ix[|ix| - 1];
      ReadWrittenCodes(width, init);
      OneCode(width, last);
      assert |CodeStream(width, init)| % width == 0;
      CodesAppend(width, CodeStream(width, init), CodeBytes(width, last));
      assert ix == init + [last];
    }
  }

  // ----- building a candidate -------------------------------------------------

  datatype Candidate = Candidate(valueBytes: bytes, dictOrd: bytes, codeWidth: nat)

  const EARLY_CHECK_DISTINCT: nat := 32 * 1024
  const EARLY_CHECK_MIN_DUPLICATES: nat := EARLY_CHECK_DISTINCT / 2

  /** src/literal_dict.rs:178-185; one-byte codes are never stopped early. */
  predicate ShouldContinue(width: nat, elementCount: nat, distinct: nat) {
    width == 1 || distinct != EARLY_CHECK_DISTINCT || elementCount - distinct >= EARLY_CHECK_MIN_DUPLICATES
  }

  /** Every new value found room in the dictionary and did not stop the build. */
  predicate Accepts(values: seq<u32>, maxValues: nat, width: nat) {
    values == [] ||
    var init, v := values[..|values| - 1], values[|values| - 1];
    && Accepts(init, maxValues, width)
    && (v in Distinct(init) || (|Distinct(init)| != maxValues && ShouldContinue(width, |values|, |Distinct(values)|)))
  }

  function Build(b: bytes, width: nat): Option<Candidate>
    requires width == 1 || width == 2
  {
    if |b| < 256 || |b| % U32_WIDTH != 0 then None
    else
      var values := UnpackU32s(b);
      if !Accepts(values, CodeLimit(width), width) || |Distinct(values)| >= |values| then None
      else Some(Candidate(PackU32s(Distinct(values)), CodeStream(width, Indexes(values)), width))
  }

  lemma {:induction false} AcceptsBounds(values: seq<u32>, maxValues: nat, width: nat)
    requires Accepts(values, maxValues, width)
    ensures |Distinct(values)| <= maxValues
  {
    if values != [] {
      AcceptsBounds(values[..|values| - 1], maxValues, width);
    }
  }

  lemma {:induction false} U8Accepts(values: seq<u32>, maxValues: nat)
    ensures Accepts(values, maxValues, 1) <==> |Distinct(values)| <= maxValues
  {
    if values != [] {
      U8Accepts(values[..|values| - 1], maxValues);
      DistinctGrows(values);
    }
  }

  lemma DistinctGrows(values: seq<u32>)
    requires values != []
    ensures var init, v := values[..|values| - 1], values[|values| - 1];
            Distinct(values) == if v in Distinct(init) then Distinct(init) else Distinct(init) + [v]
  {
  }

  /** When the one-byte form builds: a stream of whole values, at least 256 bytes long, with at
      most 256 distinct values and some repetition. */
  lemma U8BuildsExactlyWhen(b: bytes)
    ensures Build(b, 1).Some? <==>
            && |b| >= 256 && |b| % 4 == 0
            && |Distinct(UnpackU32s(b))| <= 256 && |Distinct(UnpackU32s(b))| < |b| / 4
  {
    if |b| % 4 == 0 {
      U8Accepts(UnpackU32s(b), 256);
    }
  }

  /** The prefix the two-byte form looks at when it decides whether to go on. */
  function EarlyPrefix(values: seq<u32>): seq<u32> {
    var horizon := EARLY_CHECK_DISTINCT + EARLY_CHECK_MIN_DUPLICATES - 1;
    if |values| <= horizon then values else values[..horizon]
  }

  lemma {:induction false} U16Accepts(values: seq<u32>, maxValues: nat)
    ensures Accepts(values, maxValues, 2) <==>
            |Distinct(values)| <= maxValues && |Distinct(EarlyPrefix(values))| < EARLY_CHECK_DISTINCT
  {
    if values == [] {
      assert EarlyPrefix(values) == [];
    } else {
      var init := values[..|values| - 1];
      U16Accepts(init, maxValues);
      DistinctGrows(values);
      EarlyPrefixGrows(values);
    }
  }

  lemma EarlyPrefixGrows(values: seq<u32>)
    requires values != []
    ensures var init := values[..|values| - 1];
            if |values| < EARLY_CHECK_DISTINCT + EARLY_CHECK_MIN_DUPLICATES
            then EarlyPrefix(values) == values && EarlyPrefix(init) == init
            else EarlyPrefix(values) == EarlyPrefix(init)
  {
    var horizon := EARLY_CHECK_DISTINCT + EARLY_CHECK_MIN_DUPLICATES - 1;
    if |values| > horizon {
      assert values[..|values| - 1][..horizon] == values[..horizon];
    }
  }

  /** When the two-byte form builds: as above with 65536 values, and the first 49151
      values must hold fewer than 32768 distinct ones. */
  lemma U16BuildsExactlyWhen(b: bytes)
    ensures Build(b, 2).Some? <==>
            && |b| >= 256 && |b| % 4 == 0
            && |Distinct(UnpackU32s(b))| <= 65536 && |Distinct(UnpackU32s(b))| < |b| / 4
            && |Distinct(EarlyPrefix(UnpackU32s(b)))| < 32768
  {
    if |b| % 4 == 0 {
      U16Accepts(UnpackU32s(b), 65536);
    }
  }

  // ----- decoding -------------------------------------------------------------

  /** Look every code up; one out of range spoils the stream. */
  function Expand(table: seq<u32>, codes: seq<nat>): (r: Result<seq<u32>>)
    ensures r.Ok? ==> |r.value| == |codes|
  {
    if codes == [] then Ok([])
    else
      var before :- Expand(table, codes[..|codes| - 1]);
      var code := codes[|codes| - 1];
      if code >= |table| then Err else Ok(before + [table[code]])
  }

  function DecodeSpec(valueBytes: bytes, dictOrd: bytes, width: nat): Result<bytes> {
    if (width != 1 && width != 2) || |valueBytes| % U32_WIDTH != 0 || |dictOrd| % width != 0 then Err
    else
      var values :- Expand(UnpackU32s(valueBytes), ReadCodes(width, dictOrd));
      Ok(PackU32s(values))
  }

  /** Code `i` of a code stream, low byte first. */
  function CodeAt(width: nat, codes: bytes, i: nat): nat
    requires (width == 1 || width == 2) && i < |codes| / width
  {
    if width == 1 then codes[i] else Base256(codes[2 * i], codes[2 * i + 1], 0, 0)
  }

  lemma CodesRead(width: nat, codes: bytes, i: nat)
    requires (width == 1 || width == 2) && i < |codes| / width
    ensures i < |ReadCodes(width, codes)| && ReadCodes(width, codes)[i] == CodeAt(width, codes, i)
  {
    if width == 2 { UnpackedAt16(codes, i); }
  }

  lemma {:induction false} ExpandExactlyWhen(table: seq<u32>, codes: seq<nat>, values: seq<u32>)
    ensures Expand(table, codes) == Ok(values) <==>
            |values| == |codes| && forall i | 0 <= i < |codes| :: codes[i] < |table| && values[i] == table[codes[i]]
  {
    if codes != [] && |values| == |codes| {
      var k := |codes| - 1;
      ExpandExactlyWhen(table, codes[..k], values[..k]);
      assert values == values[..k] + [values[k]];
    }
  }

  /** Value `i` of the output is the table's value at code `i`. */
  predicate LooksUp(valueBytes: bytes, dictOrd: bytes, width: nat, out: bytes, i: nat)
    requires (width == 1 || width == 2) && i < |dictOrd| / width && |out| == 4 * (|dictOrd| / width)
  {
    var code := CodeAt(width, dictOrd, i);
    4 * code + 4 <= |valueBytes| && out[4 * i..4 * i + 4] == valueBytes[4 * code..4 * code + 4]
  }

  /** What decoding accepts and returns: whole streams, every code within the table, and for each
      code the four bytes of its table entry. */
  lemma DecodesExactlyWhen(valueBytes: bytes, dictOrd: bytes, width: nat, out: bytes)
    ensures DecodeSpec(valueBytes, dictOrd, width) == Ok(out) <==>
            && (width == 1 || width == 2) && |valueBytes| % 4 == 0 && |dictOrd| % width == 0
            && |out| == 4 * (|dictOrd| / width)
            && forall i | 0 <= i < |dictOrd| / width :: LooksUp(valueBytes, dictOrd, width, out, i)
  {
    if (width == 1 || width == 2) && |valueBytes| % 4 == 0 && |dictOrd| % width == 0 {
      hide Expand, ReadCodes, UnpackU32s, PackU32s, LooksUp, CodeAt;
      var table, codes := UnpackU32s(valueBytes), ReadCodes(width, dictOrd);
      CodesCount(width, dictOrd);
      DecodeIsExpand(valueBytes, dictOrd, width, out);
      ExpandExactlyWhen(table, codes, UnpackU32s(out));
      if |out| == 4 * (|dictOrd| / width) {
        forall i | 0 <= i < |codes|
          ensures LooksUp(valueBytes, dictOrd, width, out, i) <==> codes[i] < |table| && UnpackU32s(out)[i] == table[codes[i]]
        {
          OneLookUp(valueBytes, dictOrd, width, out, i);
        }
      }
    }
  }

  lemma CodesCount(width: nat, codes: bytes)
    requires width == 1 || width == 2
    ensures |ReadCodes(width, codes)| == |codes| / width
  {
  }

  lemma DecodeIsExpand(valueBytes: bytes, dictOrd: bytes, width: nat, out: bytes)
    requires (width == 1 || width == 2) && |valueBytes| % 4 == 0 && |dictOrd| % width == 0
    ensures DecodeSpec(valueBytes, dictOrd, width) == Ok(out) <==>
            |out| % 4 == 0 && Expand(UnpackU32s(valueBytes), ReadCodes(width, dictOrd)) == Ok(UnpackU32s(out))
  {
    hide Expand, ReadCodes, UnpackU32s, PackU32s;
    var r := Expand(UnpackU32s(valueBytes), ReadCodes(width, dictOrd));
    if r.Ok? { UnpackPack32(r.value); }
    if |out| % 4 == 0 { PackUnpack32(out); }
  }

  lemma OneLookUp(valueBytes: bytes, dictOrd: bytes, width: nat, out: bytes, i: nat)
    requires (width == 1 || width == 2) && |valueBytes| % 4 == 0 && i < |dictOrd| / width && |out| == 4 * (|dictOrd| / width)
    ensures i < |ReadCodes(width, dictOrd)|
    ensures var table, code := UnpackU32s(valueBytes), ReadCodes(width, dictOrd)[i];
            LooksUp(valueBytes, dictOrd, width, out, i) <==> code < |table| && UnpackU32s(out)[i] == table[code]
  {
    hide ReadCodes, UnpackU32s, CodeAt;
    CodesRead(width, dictOrd, i);
    var code := CodeAt(width, dictOrd, i);
    if 4 * code + 4 <= |valueBytes| { SameWord(out, i, valueBytes, code); }
  }

  lemma {:induction false} IndexesExpand(values: seq<u32>, whole: seq<u32>)
    requires Distinct(values) <= whole
    ensures Expand(whole, Indexes(values)) == Ok(values)
  {
    if values != [] {
      var init, v := values[..|values| - 1], values[|values| - 1];
      var code := LastCode(values);
      hide Distinct, Expand, IndexOf, Indexes;
      IndexesExpand(init, whole);
      ExpandSnoc(whole, Indexes(init), code);
      assert values == init + [v];
    }
  }

  lemma LastCode(values: seq<u32>) returns (code: nat)
    requires values != []
    ensures var init := values[..|values| - 1];
            && Indexes(values) == Indexes(init) + [code] && Distinct(init) <= Distinct(values)
            && code < |Distinct(values)| && Distinct(values)[code] == values[|values| - 1]
  {
    code := IndexOf(Distinct(values), values[|values| - 1]);
  }

  lemma ExpandSnoc(table: seq<u32>, codes: seq<nat>, code: nat)
    requires Expand(table, codes).Ok? && code < |table|
    ensures Expand(table, codes + [code]) == Ok(Expand(table, codes).value + [table[code]])
  {
    assert (codes + [code])[..|codes|] == codes;
  }

  lemma {:induction false} IndexesBounded(values: seq<u32>, i: nat)
    requires i < |values|
    ensures Indexes(values)[i] < |Distinct(values)|
    decreases |values|
  {
    if i < |values| - 1 {
      IndexesBounded(values[..|values| - 1], i);
    }
  }

  /** Whatever candidate is built decodes to the bytes it was built from. */
  lemma BuiltDecodes(b: bytes, width: nat)
    requires width == 1 || width == 2
    requires Build(b, width).Some?
    ensures var c := Build(b, width).value;
            && c.codeWidth == width
            && |c.dictOrd| == width * (|b| / 4)
            && |c.valueBytes| <= |b|
            && DecodeSpec(c.valueBytes, c.dictOrd, width) == Ok(b)
  {
    var values := UnpackU32s(b);
    hide Distinct, Indexes, Accepts, PackU32s, UnpackU32s;
    AcceptsBounds(values, CodeLimit(width), width);
    forall i | 0 <= i < |values| ensures Indexes(values)[i] < CodeLimit(width) {
      IndexesBounded(values, i);
    }
    ReadWrittenCodes(width, Indexes(values));
    UnpackPack32(Distinct(values));
    IndexesExpand(values, Distinct(values));
    PackUnpack32(b);
  }

  /** After some prefix the table holds its first `k` entries and no more. */
  lemma {:induction false} WhenSeen(values: seq<u32>, k: nat) returns (at: nat)
    requires k < |Distinct(values)|
    ensures at < |values| && Distinct(values[..at]) == Distinct(values)[..k]
  {
    var init := values[..|values| - 1];
    DistinctGrows(values);
    if k < |Distinct(init)| {
      at := WhenSeen(init, k);
      assert init[..at] == values[..at];
    } else {
      at := |init|;
      assert Distinct(init) == Distinct(values)[..k];
    }
  }

  /** `v` occurs before `w` first does. */
  ghost predicate SeenBefore(values: seq<u32>, v: u32, w: u32) {
    exists at :: 0 <= at <= |values| && v in values[..at] && w !in values[..at]
  }

  /** The table of a candidate: the stream's values, in the order in which they first occur. */
  lemma BuiltTable(b: bytes, width: nat)
    requires (width == 1 || width == 2) && Build(b, width).Some?
    ensures var table, values := UnpackU32s(Build(b, width).value.valueBytes), UnpackU32s(b);
            && (forall v: u32 :: v in table <==> v in values)
            && (forall i, j | 0 <= i < j < |table| :: SeenBefore(values, table[i], table[j]))
  {
    hide Distinct, PackU32s, UnpackU32s, SeenBefore;
    var values := UnpackU32s(b);
    UnpackPack32(Distinct(values));
    forall i, j | 0 <= i < j < |Distinct(values)| ensures SeenBefore(values, Distinct(values)[i], Distinct(values)[j]) {
      InOrder(values, i, j);
    }
  }

  lemma InOrder(values: seq<u32>, i: nat, j: nat)
    requires i < j < |Distinct(values)|
    ensures SeenBefore(values, Distinct(values)[i], Distinct(values)[j])
  {
    hide Distinct;
    var at := WhenSeen(values, j);
    DistinctNoDuplicates(values);
    assert Distinct(values)[i] == Distinct(values)[..j][i];
  }

  method Decode(valueBytes: bytes, dictOrd: bytes, width: nat) returns (r: Result<bytes>)
    ensures r == DecodeSpec(valueBytes, dictOrd, width)
  {
    if width != 1 && width != 2 { return Err; }
    if |valueBytes| % U32_WIDTH != 0 { return Err; }
    if width == 2 && |dictOrd| % U16_WIDTH != 0 { return Err; }
    var table := ReadU32s(valueBytes);
    var codes := ReadCodes(width, dictOrd);
    if table == [] && dictOrd != [] {
      EmptyTable(codes);
      return Err;
    }
    r := ExpandCodes(table, codes);
  }

  lemma {:induction false} EmptyTable(codes: seq<nat>)
    requires codes != []
    ensures Expand([], codes).Err?
  {
  }

  lemma {:induction false} ExpandPrefix(table: seq<u32>, codes: seq<nat>, k: nat)
    requires k <= |codes| && Expand(table, codes).Ok?
    ensures Expand(table, codes[..k]).Ok?
    decreases |codes|
  {
    if k == |codes| {
      assert codes[..k] == codes;
    } else {
      assert codes[..|codes| - 1][..k] == codes[..k];
      ExpandPrefix(table, codes[..|codes| - 1], k);
    }
  }

  method ExpandCodes(table: seq<u32>, codes: seq<nat>) returns (r: Result<bytes>)
    ensures r == match Expand(table, codes) case Err => Err case Ok(values) => Ok(PackU32s(values))
  {
    var out: bytes := [];
    for i := 0 to |codes|
      invariant Expand(table, codes[..i]).Ok? && out == PackU32s(Expand(table, codes[..i]).value)
    {
      assert codes[..i + 1][..i] == codes[..i];
      if codes[i] >= |table| {
        if Expand(table, codes).Ok? { ExpandPrefix(table, codes, i + 1); }
        return Err;
      }
      out := AppendU32s([table[codes[i]]], out);
      PackU32sAppend(Expand(table, codes[..i]).value, [table[codes[i]]]);
    }
    assert codes[..|codes|] == codes;
    return Ok(out);
  }

  // ----- the builder ----------------------------------------------------------

  lemma {:induction false} AcceptsPrefix(values: seq<u32>, k: nat, maxValues: nat, width: nat)
    requires k <= |values| && Accepts(values, maxValues, width)
    ensures Accepts(values[..k], maxValues, width)
    decreases |values|
  {
    if k == |values| {
      assert values[..k] == values;
    } else {
      assert values[..|values| - 1][..k] == values[..k];
      AcceptsPrefix(values[..|values| - 1], k, maxValues, width);
    }
  }

  /** The map sends every dictionary value to its place, and nothing else. */
  ghost predicate MapsTo(m: map<u32, nat>, d: seq<u32>) {
    && (forall v :: v in m <==> v in d)
    && (forall v | v in d :: m[v] == IndexOf(d, v))
  }

  lemma MapExtends(m: map<u32, nat>, d: seq<u32>, v: u32)
    requires MapsTo(m, d) && v !in d
    ensures MapsTo(m[v := |d|], d + [v])
  {
    forall w | w in d + [v] ensures m[v := |d|][w] == IndexOf(d + [v], w) {
      if w in d { IndexInPrefix(d, d + [v], w); } else { LastIndex(d, v); }
    }
  }

  lemma {:induction false} LastIndex(d: seq<u32>, v: u32)
    requires v !in d
    ensures IndexOf(d + [v], v) == |d|
  {
    if d != [] {
      assert (d + [v])[1..] == d[1..] + [v];
      LastIndex(d[1..], v);
    }
  }

  /** The builder's variables after the first `i` values. */
  ghost predicate Built(input: seq<u32>, i: nat, width: nat, places: map<u32, nat>, values: seq<u32>, dictOrd: bytes)
    requires (width == 1 || width == 2) && i <= |input|
  {
    && Accepts(input[..i], CodeLimit(width), width)
    && values == Distinct(input[..i])
    && MapsTo(places, values)
    && dictOrd == CodeStream(width, Indexes(input[..i]))
  }

  /** src/literal_dict.rs:128-176, for one-byte and two-byte codes. */
  method BuildCandidate(b: bytes, width: nat) returns (r: Option<Candidate>)
    requires width == 1 || width == 2
    ensures r == Build(b, width)
  {
    if |b| < 256 || |b| % U32_WIDTH != 0 { return None; }
    hide Build, Built, Distinct, CodeBytes, ShouldContinue;
    var input := ReadU32s(b);
    var places: map<u32, nat> := map[];
    var values: seq<u32> := [];
    var dictOrd: bytes := [];
    NothingBuilt(input, width);
    for i := 0 to |input|
      invariant Built(input, i, width, places, values, dictOrd)
    {
      BuildStep(b, input, i, width, places, values, dictOrd);
      var value := input[i];
      var index;
      if value in places {
        index := places[value];
      } else {
        if |values| == CodeLimit(width) { return None; }
        index := |values|;
        values := values + [value];
        places := places[value := index];
        if !ShouldContinue(width, i + 1, |values|) { return None; }
      }
      dictOrd := dictOrd + CodeBytes(width, index);
    }
    BuildEnd(b, input, width, places, values, dictOrd);
    if |values| >= |input| { return None; }
    var valueBytes := AppendU32s(values, []);
    assert valueBytes == PackU32s(values);
    return Some(Candidate(valueBytes, dictOrd, width));
  }

  lemma NothingBuilt(input: seq<u32>, width: nat)
    requires width == 1 || width == 2
    ensures Built(input, 0, width, map[], [], [])
  {
  }

  lemma BuildEnd(b: bytes, input: seq<u32>, width: nat, places: map<u32, nat>, values: seq<u32>, dictOrd: bytes)
    requires (width == 1 || width == 2) && |b| >= 256 && |b| % 4 == 0 && input == UnpackU32s(b)
    requires Built(input, |input|, width, places, values, dictOrd)
    ensures Build(b, width) == if |values| >= |input| then None else Some(Candidate(PackU32s(values), dictOrd, width))
  {
    assert input[..|input|] == input;
  }

  /** One more value: either the build goes on with it, or there is no candidate. */
  lemma BuildStep(b: bytes, input: seq<u32>, i: nat, width: nat, places: map<u32, nat>, values: seq<u32>, dictOrd: bytes)
    requires (width == 1 || width == 2) && i < |input|
    requires |b| >= 256 && |b| % 4 == 0 && input == UnpackU32s(b)
    requires Built(input, i, width, places, values, dictOrd)
    ensures var v := input[i];
            if v in places then Built(input, i + 1, width, places, values, dictOrd + CodeBytes(width, places[v]))
            else if |values| == CodeLimit(width) || !ShouldContinue(width, i + 1, |values| + 1) then Build(b, width) == None
            else Built(input, i + 1, width, places[v := |values|], values + [v], dictOrd + CodeBytes(width, |values|))
  {
    hide Build, Distinct, Indexes, CodeStream, Accepts, MapsTo, CodeBytes, ShouldContinue;
    OneMore(input, i, width, places);
    if !Accepts(input[..i + 1], CodeLimit(width), width) {
      NoCandidate(b, i + 1, width);
    }
  }

  lemma NoCandidate(b: bytes, k: nat, width: nat)
    requires (width == 1 || width == 2) && k <= |b| / 4
    requires !Accepts(UnpackU32s(b)[..k], CodeLimit(width), width)
    ensures Build(b, width) == None
  {
    hide Accepts;
    if Accepts(UnpackU32s(b), CodeLimit(width), width) {
      AcceptsPrefix(UnpackU32s(b), k, CodeLimit(width), width);
    }
  }

  /** What one more value does to the dictionary, the map, the code stream and the verdict. */
  lemma OneMore(input: seq<u32>, i: nat, width: nat, places: map<u32, nat>)
    requires (width == 1 || width == 2) && i < |input|
    requires MapsTo(places, Distinct(input[..i])) && Accepts(input[..i], CodeLimit(width), width)
    ensures var d, v := Distinct(input[..i]), input[i];
            var index := if v in places then places[v] else |d|;
            && Distinct(input[..i + 1]) == (if v in places then d else d + [v])
            && MapsTo(if v in places then places else places[v := |d|], Distinct(input[..i + 1]))
            && CodeStream(width, Indexes(input[..i + 1])) == CodeStream(width, Indexes(input[..i])) + CodeBytes(width, index)
            && (Accepts(input[..i + 1], CodeLimit(width), width) <==>
                v in places || (|d| != CodeLimit(width) && ShouldContinue(width, i + 1, |d| + 1)))
  {
    hide CodeBytes, ShouldContinue, Indexes, CodeStream, Distinct, Accepts, IndexOf;
    var now := input[..i + 1];
    assert now[..i] == input[..i];
    DistinctGrows(now);
    OneMoreCode(now, width);
    OneMoreAccepted(now, width);
    NewPlace(places, Distinct(input[..i]), input[i]);
  }

  lemma OneMoreAccepted(values: seq<u32>, width: nat)
    requires (width == 1 || width == 2) && values != []
    requires Accepts(values[..|values| - 1], CodeLimit(width), width)
    ensures var d, v := Distinct(values[..|values| - 1]), values[|values| - 1];
            Accepts(values, CodeLimit(width), width) <==>
            v in d || (|d| != CodeLimit(width) && ShouldContinue(width, |values|, |d| + 1))
  {
    hide ShouldContinue;
    DistinctGrows(values);
  }

  lemma NewPlace(places: map<u32, nat>, d: seq<u32>, v: u32)
    requires MapsTo(places, d)
    ensures v in places <==> v in d
    ensures v in places ==> IndexOf(d, v) == places[v]
    ensures v !in places ==> IndexOf(d + [v], v) == |d| && MapsTo(places[v := |d|], d + [v])
  {
    hide IndexOf;
    if v !in d {
      LastIndex(d, v);
      MapExtends(places, d, v);
    }
  }

  lemma OneMoreCode(values: seq<u32>, width: nat)
    requires (width == 1 || width == 2) && values != []
    ensures var init, index := values[..|values| - 1], IndexOf(Distinct(values), values[|values| - 1]);
            CodeStream(width, Indexes(values)) == CodeStream(width, Indexes(init)) + CodeBytes(width, index)
  {
    hide Distinct, CodeBytes;
    assert Indexes(values)[..|values| - 1] == Indexes(values[..|values| - 1]);
  }
}
