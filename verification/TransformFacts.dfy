/** When each of the five transforms accepts its inputs, and what it then returns, with the wire's
    own numbers: src/frame.rs:419-445 and 457-632. */
module TransformFacts {
  import opened Basics
  import opened Varint
  import opened ChunkFormat
  import opened ChunkMachine
  import opened ZstdCodec
  import Delta
  import FieldLz
  import FieldLzDecoder
  import FieldLzRoundTrip
  import LiteralDict
  import Transpose

  /** The inputs are as many as the expected widths, and each recorded width is the expected one. */
  predicate Widths(ins: seq<Typed>, expected: seq<nat>) {
    |ins| == |expected| && forall i | 0 <= i < |ins| :: ins[i].width == None || ins[i].width == Some(expected[i])
  }

  lemma HeaderIs(header: bytes, v: nat)
    ensures ParseSingle(header).Ok? && ParseSingle(header).value == v <==> IsU64(v) && header == Leb(v)
  {
    SingleExactlyWhen(header, v);
  }

  lemma ZstdExactlyWhen(z: Codec, n: nat, ins: seq<Typed>, t: Transform, o: Output)
    requires t.transformId == 22
    ensures Execute(z, n, ins, t) == Ok(o) <==>
            && |t.outputs| == 1 && |ins| == 1
            && IsU64(o.width) && t.privateHeader == Leb(o.width)
            && o.width != 0 && |o.data| % o.width == 0 && |o.data| <= 16_777_216
            && ins[0].data != [] && z.contentSize(ins[0].data) == Ok(|o.data|) && z.decompress(ins[0].data) == Ok(o.data)
  {
    hide ParseSingle, Leb, DecodeMagicless;
    HeaderIs(t.privateHeader, o.width);
    if |ins| == 1 {
      ZstdCodec.DecodesExactlyWhen(z, ins[0].data, o.width, o.data);
    }
  }

  /** Some commands and literals explain the five streams and run to `data`. */
  ghost predicate Explained(ins: seq<Typed>, n: nat, data: bytes)
    requires |ins| == 5
  {
    exists cs: seq<FieldLz.Command>, literals, values ::
      FieldLzRoundTrip.Codes(FieldLzInput(ins), n, data, cs, literals, values)
  }

  lemma FieldLzExactlyWhen(z: Codec, n: nat, ins: seq<Typed>, t: Transform, o: Output)
    requires t.transformId == 24
    ensures Execute(z, n, ins, t) == Ok(o) <==>
            && |t.outputs| == 1 && Widths(ins, [4, 2, 4, 4, 4])
            && t.privateHeader == Leb(n) && 4 * n < U64_LIMIT
            && o.width == 4 && Explained(ins, n, o.data)
  {
    hide ParseSingle, Leb, FieldLzDecoder.DecodeSpec, FieldLzRoundTrip.Codes, FieldLzInput;
    HeaderIs(t.privateHeader, n);
    FieldLzWidthsAre(ins);
    if |ins| == 5 {
      FieldLzRoundTrip.DecodesExactlyWhen(FieldLzInput(ins), n, o.data);
    }
  }

  lemma FieldLzWidthsAre(ins: seq<Typed>)
    ensures FieldLzWidths(ins) <==> Widths(ins, [4, 2, 4, 4, 4])
  {
  }

  /** Literals, tokens, offsets, extra literal lengths, extra match lengths, in this order. */
  lemma FieldLzInputOrder(ins: seq<Typed>)
    requires |ins| == 5
    ensures var s := FieldLzInput(ins);
            && s.literals == ins[0].data && s.tokens == ins[1].data && s.offsets == ins[2].data
            && s.extraLiteralLengths == ins[3].data && s.extraMatchLengths == ins[4].data
  {
  }

  lemma Split4ExactlyWhen(z: Codec, n: nat, ins: seq<Typed>, t: Transform, o: Output)
    requires t.transformId == 31
    ensures Execute(z, n, ins, t) == Ok(o) <==>
            && |t.outputs| == 1 && t.privateHeader == [] && Widths(ins, [1, 1, 1, 1])
            && var l := Transpose.Lanes(ins[0].data, ins[1].data, ins[2].data, ins[3].data);
               && l.EqualLengths() && |l.lane0| <= n && |o.data| == 4 * |l.lane0| && o.width == 4
               && forall i | 0 <= i < |l.lane0| :: Transpose.Interleaves(o.data, l, i)
  {
    hide Transpose.DecodeSpec, Transpose.Interleaves;
    if |ins| == 4 {
      var l := Transpose.Lanes(ins[0].data, ins[1].data, ins[2].data, ins[3].data);
      Transpose.DecodesExactlyWhen(l, n, o.data);
    }
  }

  lemma DeltaExactlyWhen(z: Codec, n: nat, ins: seq<Typed>, t: Transform, o: Output)
    requires t.transformId == 1
    ensures Execute(z, n, ins, t) == Ok(o) <==>
            && |t.outputs| == 1 && t.privateHeader == [] && Widths(ins, [4])
            && |ins[0].data| % 4 == 0 && |o.data| % 4 == 0 && o.width == 4
            && Delta.PrefixSums(UnpackU32s(o.data), UnpackU32s(ins[0].data))
  {
    hide Delta.DecodeSpec, Delta.PrefixSums, UnpackU32s;
    if |ins| == 1 {
      Delta.DecodesExactlyWhen(ins[0].data, o.data);
    }
  }

  /** A table of four-byte values, codes of the width the header declares, and their lookups. */
  predicate Translated(ins: seq<Typed>, width: nat, data: bytes)
    requires |ins| == 2 && (width == 1 || width == 2)
  {
    var table, codes := ins[0].data, ins[1].data;
    && Widths(ins, [4, width]) && |table| % 4 == 0 && |codes| % width == 0 && |data| == 4 * (|codes| / width)
    && forall i | 0 <= i < |codes| / width :: LiteralDict.LooksUp(table, codes, width, data, i)
  }

  lemma DictExactlyWhen(z: Codec, n: nat, ins: seq<Typed>, t: Transform, o: Output)
    requires t.transformId == 1001
    ensures Execute(z, n, ins, t) == Ok(o) <==>
            && |t.outputs| == 1 && |ins| == 2 && o.width == 4
            && ((t.privateHeader == [1] && Translated(ins, 1, o.data)) || (t.privateHeader == [2] && Translated(ins, 2, o.data)))
  {
    hide ParseSingle, Leb, LiteralDict.DecodeSpec, Translated;
    if |ins| == 2 && |t.outputs| == 1 && o.width == 4 {
      DictWidth(ins, t.privateHeader, 1, o);
      DictWidth(ins, t.privateHeader, 2, o);
      if ExecuteDict(ins, t.privateHeader).Ok? {
        var w := ParseSingle(t.privateHeader).value;
        assert w == 1 || w == 2;
      }
    }
  }

  lemma DictWidth(ins: seq<Typed>, header: bytes, width: nat, o: Output)
    requires |ins| == 2 && (width == 1 || width == 2) && o.width == 4
    ensures header == [width] <==> ParseSingle(header) == Ok(width)
    ensures header == [width] ==> (ExecuteDict(ins, header) == Ok(o) <==> Translated(ins, width, o.data))
  {
    hide ParseSingle, LiteralDict.DecodeSpec, LiteralDict.LooksUp;
    assert Leb(width) == [width];
    SingleExactlyWhen(header, width);
    LiteralDict.DecodesExactlyWhen(ins[0].data, ins[1].data, width, o.data);
  }

  /** There are no other transforms. */
  lemma OthersRefused(z: Codec, n: nat, ins: seq<Typed>, t: Transform)
    requires t.transformId !in {1, 22, 24, 31, 1001}
    ensures Execute(z, n, ins, t) == Err
  {
  }

  /** The limits of a chunk's header. */
  lemma HeaderLimits(n: nat, slotCount: nat, storedCount: nat, transformCount: nat, finalId: nat)
    ensures HeaderOk(n, slotCount, storedCount, transformCount, finalId) <==>
            && 1 <= n <= 4_194_304 && slotCount <= 110_000 && transformCount <= 20_000
            && storedCount <= slotCount && finalId < slotCount
  {
  }
}
