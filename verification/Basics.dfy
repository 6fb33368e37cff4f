/** Shared vocabulary: results, machine-width integers, the named constants of the
    format, and little-endian packing of fixed-width values. */
module Basics {

  /** Accept or reject. Which error is reported, and its text, is not modelled. */
  datatype Result<+T> = Ok(value: T) | Err {
    predicate IsFailure() { Err? }
    function PropagateFailure<U>(): Result<U> requires Err? { Err }
    function Extract(): T requires Ok? { value }
  }

  datatype Option<+T> = None | Some(value: T)

  const U8_LIMIT: nat := 0x100
  const U16_LIMIT: nat := 0x1_0000
  const U32_LIMIT: nat := 0x1_0000_0000
  const U64_LIMIT: nat := 0x1_0000_0000_0000_0000

  type u8 = x: int | 0 <= x < 0x100
  type u16 = x: int | 0 <= x < 0x1_0000
  type u32 = x: int | 0 <= x < 0x1_0000_0000
  type u64 = x: int | 0 <= x < 0x1_0000_0000_0000_0000
  type bytes = seq<u8>

  const U16_WIDTH: nat := 2
  const U32_WIDTH: nat := 4
  const MAX_CHUNK_BYTES: nat := 16 * 1024 * 1024
  const MAX_CHUNK_ELEMENTS: nat := MAX_CHUNK_BYTES / U32_WIDTH
  const MAX_OFFSET_ELEMENTS: nat := MAX_CHUNK_ELEMENTS - 1
  const MIN_ZSTD_STREAM_SIZE: nat := 10

  const DELTA_INT_ID: nat := 1
  const ZSTD_ID: nat := 22
  const FIELD_LZ_ID: nat := 24
  const TRANSPOSE_SPLIT4_ID: nat := 31
  const LITERAL_DICT_ID: nat := 1001

  const FIELD_LZ_INPUT_COUNT: nat := 5
  const TRANSFORM_INPUT_LIMIT: nat := 2_048
  const TRANSFORM_LIMIT: nat := 20_000
  const STREAM_LIMIT: nat := 110_000
  const TRANSFORM_OUT_LIMIT: nat := 100_000

  // ----- little-endian packing ------------------------------------------------

  /** Byte `j` (0 is the lowest) of a 32-bit value. */
  function Byte32(v: u32, j: nat): u8
    requires j < 4
  {
    if j == 0 then v % 0x100
    else if j == 1 then v / 0x100 % 0x100
    else if j == 2 then v / 0x100 / 0x100 % 0x100
    else v / 0x100 / 0x100 / 0x100
  }

  function Word32(b0: u8, b1: u8, b2: u8, b3: u8): u32 {
    b0 + 0x100 * b1 + 0x1_0000 * b2 + 0x100_0000 * b3
  }

  function Word16(b0: u8, b1: u8): u16 {
    b0 + 0x100 * b1
  }

  function LeBytes(v: u32): (b: bytes)
    ensures |b| == 4
  {
    [Byte32(v, 0), Byte32(v, 1), Byte32(v, 2), Byte32(v, 3)]
  }

  function PackU32s(values: seq<u32>): (b: bytes)
    ensures |b| == 4 * |values|
  {
    if values == [] then [] else LeBytes(values[0]) + PackU32s(values[1..])
  }

  /** Whole words only: a ragged tail is dropped. */
  function UnpackU32s(b: bytes): (values: seq<u32>)
    ensures |values| == |b| / 4
  {
    if |b| < 4 then [] else [Word32(b[0], b[1], b[2], b[3])] + UnpackU32s(b[4..])
  }

  function PackU16s(values: seq<u16>): (b: bytes)
    ensures |b| == 2 * |values|
  {
    if values == [] then [] else [values[0] % 0x100, values[0] / 0x100] + PackU16s(values[1..])
  }

  function UnpackU16s(b: bytes): (values: seq<u16>)
    ensures |values| == |b| / 2
  {
    if |b| < 2 then [] else [Word16(b[0], b[1])] + UnpackU16s(b[2..])
  }

  lemma WordOfBytes(v: u32)
    ensures Word32(Byte32(v, 0), Byte32(v, 1), Byte32(v, 2), Byte32(v, 3)) == v
  {
    var q1 := v / 0x100;
    var q2 := q1 / 0x100;
    assert v == 0x100 * q1 + Byte32(v, 0) && q1 == 0x100 * q2 + Byte32(v, 1);
    assert q2 == 0x100 * Byte32(v, 3) + Byte32(v, 2);
  }

  lemma BytesOfWord(b0: u8, b1: u8, b2: u8, b3: u8)
    ensures var w := Word32(b0, b1, b2, b3);
            Byte32(w, 0) == b0 && Byte32(w, 1) == b1 && Byte32(w, 2) == b2 && Byte32(w, 3) == b3
  {
    var q2 := b2 + 0x100 * b3;
    var q1 := b1 + 0x100 * q2;
    var w := Word32(b0, b1, b2, b3);
    assert w == b0 + 0x100 * q1;
    assert w / 0x100 == q1 && q1 / 0x100 == q2;
  }

  /** Four digits in base 256, low digit first. */
  function Base256(d0: nat, d1: nat, d2: nat, d3: nat): nat {
    d0 + 256 * (d1 + 256 * (d2 + 256 * d3))
  }

  lemma {:induction false} PackedAt(values: seq<u32>, i: nat)
    requires i < |values|
    ensures PackU32s(values)[4 * i..4 * i + 4] == LeBytes(values[i])
  {
    hide LeBytes;
    var head, tail := LeBytes(values[0]), PackU32s(values[1..]);
    assert PackU32s(values) == head + tail;
    if i > 0 {
      hide PackU32s;
      PackedAt(values[1..], i - 1);
      SliceAfter(head, tail, 4 * (i - 1));
      assert 4 * i == 4 + 4 * (i - 1);
    }
  }

  lemma SliceAfter(head: bytes, tail: bytes, k: nat)
    requires |head| == 4 && k + 4 <= |tail|
    ensures (head + tail)[4 + k..4 + k + 4] == tail[k..k + 4]
  {
  }

  /** The low byte comes first: a value is its four bytes in base 256. */
  lemma LowByteFirst(values: seq<u32>, i: nat)
    requires i < |values|
    ensures var b := PackU32s(values); values[i] == Base256(b[4 * i], b[4 * i + 1], b[4 * i + 2], b[4 * i + 3])
  {
    hide PackU32s, LeBytes, Base256;
    var b := PackU32s(values);
    PackedAt(values, i);
    FourBytes(b, 4 * i);
    LeBytesAre(values[i], b[4 * i], b[4 * i + 1], b[4 * i + 2], b[4 * i + 3]);
  }

  lemma LeBytesAre(v: u32, b0: u8, b1: u8, b2: u8, b3: u8)
    requires LeBytes(v) == [b0, b1, b2, b3]
    ensures v == Base256(b0, b1, b2, b3)
  {
    WordOfBytes(v);
    hide Byte32;
    assert LeBytes(v)[0] == b0 && LeBytes(v)[1] == b1 && LeBytes(v)[2] == b2 && LeBytes(v)[3] == b3;
  }

  lemma {:induction false} LowByteFirst16(values: seq<u16>, i: nat)
    requires i < |values|
    ensures values[i] == Base256(PackU16s(values)[2 * i], PackU16s(values)[2 * i + 1], 0, 0)
  {
    if i > 0 {
      LowByteFirst16(values[1..], i - 1);
    }
  }

  /** Packing loses nothing. */
  lemma {:induction false} UnpackPack32(values: seq<u32>)
    ensures UnpackU32s(PackU32s(values)) == values
  {
    if values != [] {
      WordOfBytes(values[0]);
      UnpackPack32(values[1..]);
      assert PackU32s(values)[4..] == PackU32s(values[1..]);
    }
  }

  /** Unpacking loses nothing on a stream of whole values. */
  lemma {:induction false} PackUnpack32(b: bytes)
    requires |b| % 4 == 0
    ensures PackU32s(UnpackU32s(b)) == b
  {
    if b != [] {
      BytesOfWord(b[0], b[1], b[2], b[3]);
      PackUnpack32(b[4..]);
      assert UnpackU32s(b)[1..] == UnpackU32s(b[4..]);
      assert b == b[..4] + b[4..];
    }
  }

  lemma {:induction false} UnpackPack16(values: seq<u16>)
    ensures UnpackU16s(PackU16s(values)) == values
  {
    if values != [] {
      UnpackPack16(values[1..]);
      assert PackU16s(values)[2..] == PackU16s(values[1..]);
    }
  }

  lemma UnpackFirst16(b: bytes)
    requires |b| >= 2
    ensures UnpackU16s(b) == [Word16(b[0], b[1])] + UnpackU16s(b[2..])
  {
  }

  lemma {:induction false} UnpackU16sAppend(a: bytes, b: bytes)
    requires |a| % 2 == 0
    ensures UnpackU16s(a + b) == UnpackU16s(a) + UnpackU16s(b)
  {
    if a == [] {
      assert a + b == b;
    } else {
      assert (a + b)[2..] == a[2..] + b;
      UnpackFirst16(a);
      UnpackFirst16(a + b);
      hide Word16, UnpackU16s;
      UnpackU16sAppend(a[2..], b);
    }
  }

  lemma {:induction false} PackU32sAppend(a: seq<u32>, b: seq<u32>)
    ensures PackU32s(a + b) == PackU32s(a) + PackU32s(b)
  {
    if a == [] {
      assert a + b == b;
    } else {
      assert (a + b)[1..] == a[1..] + b;
      PackU32sAppend(a[1..], b);
    }
  }

  lemma UnpackFirst(b: bytes)
    requires |b| >= 4
    ensures UnpackU32s(b) == [Word32(b[0], b[1], b[2], b[3])] + UnpackU32s(b[4..])
  {
  }

  lemma {:induction false} UnpackU32sAppend(a: bytes, b: bytes)
    requires |a| % 4 == 0
    ensures UnpackU32s(a + b) == UnpackU32s(a) + UnpackU32s(b)
  {
    if a == [] {
      assert a + b == b;
    } else {
      assert (a + b)[4..] == a[4..] + b;
      UnpackFirst(a);
      UnpackFirst(a + b);
      hide Word32, UnpackU32s;
      UnpackU32sAppend(a[4..], b);
    }
  }

  /** Word `i` of a byte stream is read off its four bytes. */
  lemma {:induction false} UnpackedAt(b: bytes, i: nat)
    requires 4 * i + 4 <= |b|
    ensures UnpackU32s(b)[i] == Word32(b[4 * i], b[4 * i + 1], b[4 * i + 2], b[4 * i + 3])
  {
    UnpackFirst(b);
    if i > 0 {
      hide Word32, UnpackU32s;
      var k := 4 * (i - 1);
      UnpackedAt(b[4..], i - 1);
      assert 4 * i == k + 4;
      Dropped(b, k);
    }
  }

  lemma Dropped(b: bytes, k: nat)
    requires k + 8 <= |b|
    ensures var t := b[4..];
            t[k] == b[k + 4] && t[k + 1] == b[k + 5] && t[k + 2] == b[k + 6] && t[k + 3] == b[k + 7]
  {
  }

  lemma {:induction false} UnpackedAt16(b: bytes, i: nat)
    requires 2 * i + 2 <= |b|
    ensures UnpackU16s(b)[i] == Base256(b[2 * i], b[2 * i + 1], 0, 0)
  {
    if i > 0 {
      UnpackedAt16(b[2..], i - 1);
    }
  }

  /** Equal words are equal bytes. */
  lemma SameWord(a: bytes, i: nat, b: bytes, j: nat)
    requires 4 * i + 4 <= |a| && 4 * j + 4 <= |b|
    ensures a[4 * i..4 * i + 4] == b[4 * j..4 * j + 4] <==> UnpackU32s(a)[i] == UnpackU32s(b)[j]
  {
    hide UnpackU32s, Word32;
    UnpackedAt(a, i);
    UnpackedAt(b, j);
    var k, m := 4 * i, 4 * j;
    FourBytes(a, k);
    FourBytes(b, m);
    OneToOne(a[k], a[k + 1], a[k + 2], a[k + 3], b[m], b[m + 1], b[m + 2], b[m + 3]);
  }

  lemma OneToOne(a0: u8, a1: u8, a2: u8, a3: u8, b0: u8, b1: u8, b2: u8, b3: u8)
    ensures [a0, a1, a2, a3] == [b0, b1, b2, b3] <==> Word32(a0, a1, a2, a3) == Word32(b0, b1, b2, b3)
  {
    hide Word32, Byte32;
    BytesOfWord(a0, a1, a2, a3);
    BytesOfWord(b0, b1, b2, b3);
    assert [a0, a1, a2, a3] == [b0, b1, b2, b3] ==> a0 == b0 && a1 == b1 && a2 == b2 && a3 == b3 by {
      var l, r := [a0, a1, a2, a3], [b0, b1, b2, b3];
      assert l == r ==> l[0] == r[0] && l[1] == r[1] && l[2] == r[2] && l[3] == r[3];
    }
  }

  lemma FourBytes(b: bytes, i: nat)
    requires i + 4 <= |b|
    ensures b[i..i + 4] == [b[i], b[i + 1], b[i + 2], b[i + 3]]
  {
  }

  lemma BytesOfHalfWord(b0: u8, b1: u8)
    ensures Word16(b0, b1) % 0x100 == b0 && Word16(b0, b1) / 0x100 == b1
  {
  }

  lemma {:induction false} PackUnpack16(b: bytes)
    requires |b| % 2 == 0
    ensures PackU16s(UnpackU16s(b)) == b
  {
    if b != [] {
      hide Word16;
      BytesOfHalfWord(b[0], b[1]);
      PackUnpack16(b[2..]);
      assert UnpackU16s(b)[1..] == UnpackU16s(b[2..]);
      assert b == b[..2] + b[2..];
    }
  }

  /** One more whole word. */
  lemma UnpackNext(b: bytes, i: nat)
    requires 4 * i + 4 <= |b|
    ensures UnpackU32s(b[..4 * i + 4]) ==
            UnpackU32s(b[..4 * i]) + [Word32(b[4 * i], b[4 * i + 1], b[4 * i + 2], b[4 * i + 3])]
  {
    var word := b[4 * i..4 * i + 4];
    assert b[..4 * i + 4] == b[..4 * i] + word;
    UnpackU32sAppend(b[..4 * i], word);
  }

  lemma {:induction false} PackU16sAppend(a: seq<u16>, b: seq<u16>)
    ensures PackU16s(a + b) == PackU16s(a) + PackU16s(b)
  {
    if a == [] {
      assert a + b == b;
    } else {
      assert (a + b)[1..] == a[1..] + b;
      PackU16sAppend(a[1..], b);
    }
  }

  /** src/field_lz.rs:382-387: append each value's four bytes. */
  method AppendU32s(values: seq<u32>, out: bytes) returns (r: bytes)
    ensures r == out + PackU32s(values)
  {
    r := out;
    for i := 0 to |values|
      invariant r + PackU32s(values[i..]) == out + PackU32s(values)
    {
      assert values[i..][1..] == values[i + 1..];
      r := r + LeBytes(values[i]);
    }
  }

  lemma NextWord(b: bytes, i: nat)
    requires 4 * i + 4 <= |b|
    ensures UnpackU32s(b[4 * i..]) == [Word32(b[4 * i], b[4 * i + 1], b[4 * i + 2], b[4 * i + 3])] + UnpackU32s(b[4 * (i + 1)..])
  {
    UnpackFirst(b[4 * i..]);
    hide UnpackU32s, Word32;
    assert b[4 * i..][4..] == b[4 * (i + 1)..];
  }

  /** src/field_lz.rs:396-401: read whole little-endian words. */
  method ReadU32s(b: bytes) returns (r: seq<u32>)
    ensures r == UnpackU32s(b)
  {
    assert UnpackU32s(b[4 * (|b| / 4)..]) == [];
    hide UnpackU32s, Word32;
    r := [];
    for i := 0 to |b| / 4
      invariant r + UnpackU32s(b[4 * i..]) == UnpackU32s(b)
    {
      NextWord(b, i);
      r := r + [Word32(b[4 * i], b[4 * i + 1], b[4 * i + 2], b[4 * i + 3])];
    }
  }

  lemma NextHalfWord(b: bytes, i: nat)
    requires 2 * i + 2 <= |b|
    ensures UnpackU16s(b[2 * i..]) == [Word16(b[2 * i], b[2 * i + 1])] + UnpackU16s(b[2 * (i + 1)..])
  {
    UnpackFirst16(b[2 * i..]);
    hide UnpackU16s, Word16;
    assert b[2 * i..][2..] == b[2 * (i + 1)..];
  }

  /** src/field_lz.rs:389-394 */
  method ReadU16s(b: bytes) returns (r: seq<u16>)
    ensures r == UnpackU16s(b)
  {
    assert UnpackU16s(b[2 * (|b| / 2)..]) == [];
    hide UnpackU16s, Word16;
    r := [];
    for i := 0 to |b| / 2
      invariant r + UnpackU16s(b[2 * i..]) == UnpackU16s(b)
    {
      NextHalfWord(b, i);
      r := r + [Word16(b[2 * i], b[2 * i + 1])];
    }
  }
}
