/** What the encoder finds: which matches it takes, what it remembers of them, and what it
    makes of a run of equal values. */
module FieldLzGreedy {
  import opened Basics
  import opened FieldLz
  import opened FieldLzEncoder

  // ----- which matches are taken ----------------------------------------------

  lemma MatchOfTwo(input: seq<u32>, candidate: nat, current: nat)
    requires candidate < current && current + 1 < |input|
    ensures MatchLength(input, candidate, current, 0) >= 2 <==>
            input[candidate] == input[current] && input[candidate + 1] == input[current + 1]
  {
    assert MatchLength(input, candidate, current, 2) >= 2;
  }

  /** A match is taken exactly when the bucket remembers an earlier occurrence of the next two
      values; it is then as long as that occurrence allows and uses its distance. */
  lemma MatchTakenExactlyWhen(input: Chunk, st: EncoderState)
    requires Invariant(input, st) && st.i + 1 < |input|
    ensures var entry, found := st.table[Bucket(input, st)], FindMatch(input, st);
            && (found.Some? <==> entry != 0 && input[entry - 1] == input[st.i] && input[entry] == input[st.i + 1])
            && (found.Some? ==> found.value.offset == st.i - (entry - 1) && GenuineMatch(input, st.anchor, found.value))
  {
    hide HashTwoValues, GenuineMatch, Describes;
    GuardsNeverReject(input, st);
    FoundIsGenuine(input, st);
    var entry := st.table[Bucket(input, st)];
    if entry != 0 {
      MatchOfTwo(input, entry - 1, st.i);
    }
  }

  // ----- which bucket ---------------------------------------------------------

  lemma {:induction false} PowerBounds(n: nat, p: nat)
    requires p > 0 && (p == 1 || p < 2 * n)
    ensures var r := NextPowerOfTwo(n, p); n <= r && (r == 1 || r < 2 * n)
    decreases if n > p then n - p else 0
  {
    if n > p { PowerBounds(n, 2 * p); }
  }

  /** The table has at least 4096 and at most 1048576 entries, and in between at least one and
      fewer than two for each value of the chunk. */
  lemma TableSizeFits(inputLen: nat)
    ensures var size := MatchTableSize(inputLen);
            && (inputLen <= 4096 ==> size == 4096)
            && (4096 <= inputLen <= 1_048_576 ==> inputLen <= size < 2 * inputLen)
            && (inputLen > 1_048_576 ==> size == 1_048_576)
  {
    PowerBounds(inputLen, 1);
    if inputLen <= 4096 {
      var e := NextPowerIsPower(inputLen, 0);
      if e > 12 {
        assert Pow2(13) == 8192;
        Pow2Monotone(13, e);
      }
      Pow2Monotone(e, 12);
    } else if inputLen <= 1_048_576 {
      var e := NextPowerIsPower(inputLen, 0);
      assert Pow2(20) == 1_048_576;
      assert Pow2(21) == 2_097_152;
      if e > 20 { Pow2Monotone(21, e); }
      if e <= 20 { Pow2Monotone(e, 20); }
    }
  }

  lemma {:induction false} Pow2Monotone(a: nat, b: nat)
    ensures a <= b ==> Pow2(a) <= Pow2(b)
    decreases b
  {
    if a < b { Pow2Monotone(a, b - 1); }
  }

  lemma RemainderIs(x: int, m: nat, q: int, r: nat)
    requires m > 0 && x == m * q + r && r < m
    ensures x % m == r
  {
    var p := x / m;
    assert x == m * p + x % m;
    assert m * (q - p) == x % m - r && m * (p - q) == r - x % m;
    if q > p { Scaled(m, q - p); }
    if q < p { Scaled(m, p - q); }
  }

  lemma Scaled(m: nat, k: nat)
    requires k >= 1
    ensures m * k >= m
  {
  }

  lemma ModPlus(m: nat, k: int, r: nat)
    requires m > 0
    ensures (m * k + r) % m == r % m
  {
    var q := r / m;
    assert r == m * q + r % m;
    assert m * k + r == m * (k + q) + r % m;
    RemainderIs(m * k + r, m, k + q, r % m);
  }

  lemma ModMod(x: nat, m: nat, k: nat)
    requires m > 0 && k > 0
    ensures m * k > 0 && x % (m * k) % m == x % m
  {
    var q := x / (m * k);
    assert x == m * (k * q) + x % (m * k);
    ModPlus(m, k * q, x % (m * k));
  }

  /** The first value of a pair plays no part: for every table whose size divides 2^32 the bucket
      is that of the second value times the low half of the multiplier. */
  lemma HashDropsFirst(a: u32, b: u32, size: nat, k: nat)
    requires size > 0 && k > 0 && size * k == 0x1_0000_0000
    ensures HashTwoValues(a, b, size) == b * 0x85eb_ca87 % size
  {
    var x := (a * 0x1_0000_0000 + b) * 0x9e37_79b1_85eb_ca87;
    var high := a * 0x9e37_79b1_85eb_ca87 + b * 0x9e37_79b1;
    assert x == 0x1_0000_0000 * high + b * 0x85eb_ca87;
    assert size * (k * 0x1_0000_0000) == 0x1_0000_0000_0000_0000;
    ModMod(x, size, k * 0x1_0000_0000);
    assert size * (k * high) == 0x1_0000_0000 * high;
    ModPlus(size, k * high, b * 0x85eb_ca87);
  }

  lemma SameBucket(a: u32, b: u32)
    ensures a * 0x85eb_ca87 % 4096 == b * 0x85eb_ca87 % 4096 <==> a % 4096 == b % 4096
  {
    Inverse4096(a);
    Inverse4096(b);
    Forward4096(a);
    Forward4096(b);
  }

  /** 2871 undoes the multiplier modulo 4096. */
  lemma Inverse4096(a: nat)
    ensures a * 0x85eb_ca87 % 4096 * 2871 % 4096 == a % 4096
  {
    var x := a * 0x85eb_ca87;
    var q := x / 4096;
    assert x == 4096 * q + x % 4096;
    var k := a * 1574860229 - q * 2871;
    assert x % 4096 * 2871 == 4096 * k + a;
    ModPlus(4096, k, a);
  }

  lemma Forward4096(a: nat)
    ensures a * 0x85eb_ca87 % 4096 == a % 4096 * 0x85eb_ca87 % 4096
  {
    var q, r := a / 4096, a % 4096;
    assert a * 0x85eb_ca87 == 4096 * (q * 0x85eb_ca87) + r * 0x85eb_ca87;
    ModPlus(4096, q * 0x85eb_ca87, r * 0x85eb_ca87);
  }

  // ----- what is remembered after a match -------------------------------------

  /** The pair at `pos` falls into bucket `h`. */
  predicate InBucket(input: seq<u32>, pos: int, size: nat, h: nat)
    requires size > 0
  {
    0 <= pos && pos + 1 < |input| && HashTwoValues(input[pos], input[pos + 1], size) == h
  }

  /** The positions of a match from `start` to `end` that get an entry. */
  predicate Seeded(start: nat, end: nat, pos: int) {
    && start < pos < end
    && if end - start < 16 then pos + 1 < end
       else pos == start + 1 || ((pos - start) % 8 == 0 && pos + 1 < end) || pos == end - 1
  }

  /** The positions one seeding loop visits. */
  predicate Visited(from: nat, stride: nat, end: nat, pos: int) {
    from <= pos && pos + 1 < end && (stride == 1 || (pos - from) % 8 == 0)
  }

  lemma {:induction false} PutEachLatest(input: Chunk, start: nat, end: nat, table: Table, from: nat, stride: nat, h: nat)
    requires table != [] && (stride == 1 || stride == 8) && start < from && h < |table|
    ensures var t := PutEach(input, start, end, table, from, stride);
            && (forall pos: int | Visited(from, stride, end, pos) && InBucket(input, pos, |table|, h) :: pos < t[h])
            && (t[h] == table[h] || (Visited(from, stride, end, t[h] as int - 1) && InBucket(input, t[h] as int - 1, |table|, h)))
    decreases if end > from then end - from else 0
  {
    if from + 1 < end {
      hide HashTwoValues;
      var next := Put(input, start, end, table, from);
      PutEachLatest(input, start, end, next, from + stride, stride, h);
      var t := PutEach(input, start, end, table, from, stride);
      forall pos: int | Visited(from, stride, end, pos) && InBucket(input, pos, |table|, h) ensures pos < t[h] {
        VisitedNext(from, stride, end, pos);
      }
      VisitedLater(from, stride, end, t[h] as int - 1);
    }
  }

  lemma VisitedNext(from: nat, stride: nat, end: nat, pos: int)
    requires stride == 1 || stride == 8
    requires Visited(from, stride, end, pos)
    ensures pos == from || Visited(from + stride, stride, end, pos)
  {
  }

  lemma VisitedLater(from: nat, stride: nat, end: nat, pos: int)
    requires stride == 1 || stride == 8
    ensures Visited(from + stride, stride, end, pos) ==> Visited(from, stride, end, pos)
  {
  }

  lemma PutLatest(input: Chunk, start: nat, end: nat, table: Table, pos: nat, h: nat)
    requires table != [] && start < pos < end && h < |table|
    ensures Put(input, start, end, table, pos)[h] == if InBucket(input, pos, |table|, h) then pos + 1 else table[h]
  {
    hide HashTwoValues;
  }

  /** Seeding leaves in every bucket the latest seeded position that falls into it, and leaves
      alone the buckets into which none does. */
  lemma SeedingKeepsLatest(input: Chunk, start: nat, end: nat, table: Table, h: nat)
    requires table != [] && start < end && h < |table|
    ensures var t := SeedTable(input, start, end, table);
            && (forall pos: int | Seeded(start, end, pos) && InBucket(input, pos, |table|, h) :: pos < t[h])
            && (t[h] == table[h] || (Seeded(start, end, t[h] as int - 1) && InBucket(input, t[h] as int - 1, |table|, h)))
  {
    hide Put, PutEach, InBucket;
    if end - start < 16 {
      PutEachLatest(input, start, end, table, start + 1, 1, h);
      ShortSeeds(start, end);
    } else {
      LongSeeding(input, start, end, table, h);
    }
  }

  lemma ShortSeeds(start: nat, end: nat)
    requires start < end && end - start < 16
    ensures forall pos: int :: Seeded(start, end, pos) <==> Visited(start + 1, 1, end, pos)
  {
  }

  lemma LongSeeds(start: nat, end: nat, pos: int)
    requires end - start >= 16
    ensures Seeded(start, end, pos) <==> pos == start + 1 || Visited(start + 8, 8, end, pos) || pos == end - 1
  {
    if (pos - start) % 8 == 0 && start < pos {
      assert pos >= start + 8;
    }
    assert (pos - (start + 8)) % 8 == (pos - start) % 8;
  }

  lemma LongSeeding(input: Chunk, start: nat, end: nat, table: Table, h: nat)
    requires table != [] && end - start >= 16 && h < |table|
    ensures var t := SeedTable(input, start, end, table);
            && (forall pos: int | Seeded(start, end, pos) && InBucket(input, pos, |table|, h) :: pos < t[h])
            && (t[h] == table[h] || (Seeded(start, end, t[h] as int - 1) && InBucket(input, t[h] as int - 1, |table|, h)))
  {
    hide Put, PutEach, InBucket, Visited, Seeded;
    var first := Put(input, start, end, table, start + 1);
    var middle := PutEach(input, start, end, first, start + 8, 8);
    var t := Put(input, start, end, middle, end - 1);
    PutLatest(input, start, end, table, start + 1, h);
    PutEachLatest(input, start, end, first, start + 8, 8, h);
    PutLatest(input, start, end, middle, end - 1, h);
    VisitedBounds(start + 8, end);
    forall pos: int | Seeded(start, end, pos) && InBucket(input, pos, |table|, h) ensures pos < t[h] {
      LongSeeds(start, end, pos);
    }
    LongSeeds(start, end, t[h] as int - 1);
  }

  lemma VisitedBounds(from: nat, end: nat)
    ensures forall pos: int | Visited(from, 8, end, pos) :: from <= pos < end - 1
  {
  }

  /** A position one turn of the parser remembers: where it stands, and what it seeds of a match. */
  predicate Remembered(from: nat, end: nat, matched: bool, pos: int) {
    pos == from || (matched && Seeded(from, end, pos))
  }

  /** What one turn leaves behind. Without a match it moves one value on; with one it moves past
      it and adds it to the commands. Every bucket then holds the latest position remembered in
      this turn that falls into it, or what it held before. */
  lemma StepRemembers(input: Chunk, st: EncoderState, h: nat)
    requires Invariant(input, st) && st.i + 1 < |input| && h < |st.table|
    ensures var next, found := Step(input, st), FindMatch(input, st);
            && next.i == st.i + (if found.Some? then found.value.matchLen else 1)
            && next.anchor == (if found.Some? then next.i else st.anchor)
            && next.commands == st.commands + (if found.Some? then [found.value] else [])
            && (forall pos: int | Remembered(st.i, next.i, found.Some?, pos) && InBucket(input, pos, |st.table|, h) :: pos < next.table[h])
            && (next.table[h] == st.table[h]
                || (Remembered(st.i, next.i, found.Some?, next.table[h] as int - 1) && InBucket(input, next.table[h] as int - 1, |st.table|, h)))
  {
    hide FindMatch, SeedTable, HashTwoValues, TableSound, Describes;
    var table := st.table[Bucket(input, st) := st.i + 1];
    assert st.commands + [] == st.commands;
    if FindMatch(input, st).Some? {
      SeedingKeepsLatest(input, st.i, st.i + FindMatch(input, st).value.matchLen, table, h);
    }
  }

  // ----- a run of equal values ------------------------------------------------

  lemma {:induction false} RunMatchLength(input: seq<u32>, len: nat)
    requires |input| > 1 && len + 1 <= |input| && forall k | 0 <= k < |input| :: input[k] == input[0]
    ensures MatchLength(input, 0, 1, len) == |input| - 1
    decreases |input| - len
  {
    if 1 + len < |input| {
      RunMatchLength(input, len + 1);
    }
  }

  /** A run of at least three equal values becomes one literal and one match that overlaps
      itself, at distance one, over all the rest. */
  lemma RunIsOneMatch(input: Chunk)
    requires |input| >= 3 && forall k | 0 <= k < |input| :: input[k] == input[0]
    ensures Commands(input) == [Command(3, 1, |input| - 1, 1)]
  {
    hide HashTwoValues, MatchTableSize, SeedTable;
    var st0 := Start(input);
    var h := Bucket(input, st0);
    assert FindMatch(input, st0) == None;
    var st1 := Step(input, st0);
    assert Bucket(input, st1) == h && st1.table[h] == 1;
    RunMatchLength(input, 0);
    assert FindMatch(input, st1) == Some(Command(3, 1, |input| - 1, 1));
    var st2 := Step(input, st1);
    assert Parse(input, st2) == st2;
    assert Parse(input, st1) == st2;
  }

  /** Its streams: one literal, one token, one offset, and an extra length past 16. */
  lemma RunStreams(input: Chunk)
    requires |input| >= 3 && forall k | 0 <= k < |input| :: input[k] == input[0]
    ensures EncodeStreams(input) ==
            Streams([input[0]], [7 + 64 * Min(|input| - 2, 15)], [1], [], if |input| >= 17 then [|input| - 17] else [])
  {
    hide Parse, Step;
    RunIsOneMatch(input);
    var c: Command := Command(3, 1, |input| - 1, 1);
    OneCommand(c);
    assert [c][..0] == [];
    assert Extent([c]) == c.literalLen + c.matchLen;
    var cs := Commands(input);
    assert [c][..0] == [] && cs[..0] == [];
    assert LiteralRuns(input, cs[..0]) == [];
    assert input[0..1] == [input[0]] && input[|input|..] == [];
    assert Literals(input, cs) == [input[0]];
  }

  // ----- a repeated pair --------------------------------------------------------

  lemma PairBucket(a: u32, b: u32)
    ensures HashTwoValues(a, b, 4096) == b * 0x85eb_ca87 % 4096
  {
    HashDropsFirst(a, b, 4096, 0x10_0000);
  }

  lemma PairMatch(a: u32, b: u32)
    requires a != b
    ensures MatchLength([a, b, a, b], 0, 1, 0) == 0 && MatchLength([a, b, a, b], 1, 2, 0) == 0
    ensures MatchLength([a, b, a, b], 0, 2, 0) == 2
  {
    assert MatchLength([a, b, a, b], 0, 2, 2) == 2;
    assert MatchLength([a, b, a, b], 0, 2, 1) == 2;
  }

  /** The states of the parser on a pair and its repetition, before the last turn. */
  lemma PairPrefix(a: u32, b: u32) returns (st: EncoderState)
    requires a != b
    ensures var input: Chunk := [a, b, a, b];
            && Shaped(input, st) && Parse(input, Start(input)) == Parse(input, st)
            && st.i == 2 && st.anchor == 0 && st.commands == [] && |st.table| == 4096
            && st.table[Bucket(input, st)] == if a % 4096 == b % 4096 then 2 else 1
  {
    hide HashTwoValues, SeedTable;
    var input: Chunk := [a, b, a, b];
    PairBucket(a, b);
    PairBucket(b, a);
    SameBucket(a, b);
    PairMatch(a, b);
    TableSizeFits(4);
    var st0 := Start(input);
    assert FindMatch(input, st0) == None;
    var st1 := Step(input, st0);
    assert FindMatch(input, st1) == None;
    st := Step(input, st1);
    assert Parse(input, st0) == Parse(input, st1);
  }

  /** A pair of two values and its repetition: the repetition is found exactly when the values
      differ modulo 4096. When they agree, the pair across the middle has taken the bucket. */
  lemma RepeatedPair(a: u32, b: u32)
    requires a != b
    ensures Commands([a, b, a, b]) == if a % 4096 == b % 4096 then [] else [Command(3, 2, 2, 2)]
  {
    hide Bucket, SeedTable, MatchTableSize;
    var input: Chunk := [a, b, a, b];
    PairMatch(a, b);
    var st := PairPrefix(a, b);
    assert FindMatch(input, st) == if a % 4096 == b % 4096 then None else Some(Command(3, 2, 2, 2));
    var last := Step(input, st);
    assert Parse(input, last) == last;
    assert Parse(input, st) == last;
  }
}
