/** The wrapping delta of src/delta.rs. */
module Delta {
  import opened Basics

  function WrappingSub(a: u32, b: u32): u32 { if a >= b then a - b else a - b + U32_LIMIT }

  function WrappingAdd(a: u32, b: u32): u32 { if a + b < U32_LIMIT then a + b else a + b - U32_LIMIT }

  /** The value before the next one; zero before the first. */
  function Last(values: seq<u32>): u32 { if values == [] then 0 else values[|values| - 1] }

  function Deltas(values: seq<u32>): (d: seq<u32>)
    ensures |d| == |values|
  {
    if values == [] then []
    else Deltas(values[..|values| - 1]) + [WrappingSub(Last(values), Last(values[..|values| - 1]))]
  }

  /** The wrapping running sum. */
  function Accumulate(deltas: seq<u32>): (v: seq<u32>)
    ensures |v| == |deltas|
  {
    if deltas == [] then []
    else
      var before := Accumulate(deltas[..|deltas| - 1]);
      before + [WrappingAdd(Last(before), Last(deltas))]
  }

  lemma DeltasSnoc(values: seq<u32>, v: u32)
    ensures Deltas(values + [v]) == Deltas(values) + [WrappingSub(v, Last(values))]
  {
    assert (values + [v])[..|values|] == values;
  }

  lemma AccumulateSnoc(deltas: seq<u32>, d: u32)
    ensures Accumulate(deltas + [d]) == Accumulate(deltas) + [WrappingAdd(Last(Accumulate(deltas)), d)]
  {
    assert (deltas + [d])[..|deltas|] == deltas;
  }

  lemma SubAdd(a: u32, b: u32)
    ensures WrappingAdd(b, WrappingSub(a, b)) == a && WrappingSub(WrappingAdd(b, a), b) == a
  {
  }

  lemma {:induction false} AccumulateDeltas(values: seq<u32>)
    ensures Accumulate(Deltas(values)) == values
  {
    if values != [] {
      hide Deltas, Accumulate, WrappingAdd, WrappingSub;
      var init, v := values[..|values| - 1], values[|values| - 1];
      assert values == init + [v];
      AccumulateDeltas(init);
      DeltasSnoc(init, v);
      AccumulateSnoc(Deltas(init), WrappingSub(v, Last(init)));
      SubAdd(v, Last(init));
    }
  }

  lemma {:induction false} DeltasAccumulate(deltas: seq<u32>)
    ensures Deltas(Accumulate(deltas)) == deltas
  {
    if deltas != [] {
      hide Deltas, Accumulate, WrappingAdd, WrappingSub;
      var init, d := deltas[..|deltas| - 1], deltas[|deltas| - 1];
      assert deltas == init + [d];
      DeltasAccumulate(init);
      AccumulateSnoc(init, d);
      DeltasSnoc(Accumulate(init), WrappingAdd(Last(Accumulate(init)), d));
      SubAdd(d, Last(Accumulate(init)));
    }
  }

  function Sum(values: seq<u32>): nat {
    if values == [] then 0 else Sum(values[..|values| - 1]) + Last(values)
  }

  /** Each decoded value is the sum of the deltas up to it, modulo 2^32. */
  lemma {:induction false} AccumulateIsPrefixSum(deltas: seq<u32>, k: nat)
    requires k < |deltas|
    ensures Accumulate(deltas)[k] == Sum(deltas[..k + 1]) % U32_LIMIT
    decreases |deltas|
  {
    var init := deltas[..|deltas| - 1];
    if k < |init| {
      assert init[..k + 1] == deltas[..k + 1];
      AccumulateIsPrefixSum(init, k);
    } else {
      assert deltas[..k + 1] == deltas;
      if init != [] {
        assert init[..k] == init;
        AccumulateIsPrefixSum(init, k - 1);
        Wraps(Sum(init), Last(Accumulate(init)), Last(deltas));
      }
    }
  }

  /** Every value is the sum of the deltas up to it, modulo 2^32. */
  predicate PrefixSums(values: seq<u32>, deltas: seq<u32>) {
    |values| == |deltas| && forall k | 0 <= k < |deltas| :: values[k] == Sum(deltas[..k + 1]) % 0x1_0000_0000
  }

  lemma AccumulateExactlyWhen(deltas: seq<u32>, values: seq<u32>)
    ensures values == Accumulate(deltas) <==> PrefixSums(values, deltas)
  {
    hide Accumulate, Sum;
    forall k | 0 <= k < |deltas| ensures Accumulate(deltas)[k] == Sum(deltas[..k + 1]) % U32_LIMIT {
      AccumulateIsPrefixSum(deltas, k);
    }
  }

  /** What decoding accepts and returns: whole values, and their prefix sums. */
  lemma DecodesExactlyWhen(b: bytes, out: bytes)
    ensures DecodeSpec(b) == Ok(out) <==>
            |b| % 4 == 0 && |out| % 4 == 0 && PrefixSums(UnpackU32s(out), UnpackU32s(b))
  {
    hide Accumulate, PackU32s, UnpackU32s, PrefixSums;
    AccumulateExactlyWhen(UnpackU32s(b), UnpackU32s(out));
    UnpackPack32(Accumulate(UnpackU32s(b)));
    if |out| % 4 == 0 {
      PackUnpack32(out);
    }
  }

  lemma Wraps(total: nat, acc: u32, d: u32)
    requires acc == total % U32_LIMIT
    ensures WrappingAdd(acc, d) == (total + d) % U32_LIMIT
  {
    var q := total / U32_LIMIT;
    assert total == q * U32_LIMIT + acc;
  }

  method EncodeU32Deltas(input: seq<u32>) returns (out: seq<u32>)
    ensures out == Deltas(input)
  {
    out := [];
    var prev: u32 := 0;
    for i := 0 to |input|
      invariant out == Deltas(input[..i]) && prev == Last(input[..i])
    {
      assert input[..i + 1][..i] == input[..i];
      out := out + [WrappingSub(input[i], prev)];
      prev := input[i];
    }
    assert input[..|input|] == input;
  }

  /** What decoding a byte stream of deltas promises. */
  function DecodeSpec(b: bytes): Result<bytes> {
    if |b| % U32_WIDTH != 0 then Err else Ok(PackU32s(Accumulate(UnpackU32s(b))))
  }

  lemma NothingYet(b: bytes)
    ensures Accumulate(UnpackU32s(b[..0])) == []
  {
  }

  method DecodeU32DeltaBytes(b: bytes) returns (r: Result<bytes>)
    ensures r == DecodeSpec(b)
  {
    if |b| % U32_WIDTH != 0 { return Err; }
    hide Word32, LeBytes, WrappingAdd, Accumulate, UnpackU32s;
    var out: bytes := [];
    var acc: u32 := 0;
    NothingYet(b);
    for i := 0 to |b| / 4
      invariant acc == Last(Accumulate(UnpackU32s(b[..4 * i])))
      invariant out == PackU32s(Accumulate(UnpackU32s(b[..4 * i])))
    {
      var delta := Word32(b[4 * i], b[4 * i + 1], b[4 * i + 2], b[4 * i + 3]);
      UnpackNext(b, i);
      assert 4 * (i + 1) == 4 * i + 4;
      AccumulateSnoc(UnpackU32s(b[..4 * i]), delta);
      acc := WrappingAdd(acc, delta);
      PackU32sAppend(Accumulate(UnpackU32s(b[..4 * i])), [acc]);
      assert PackU32s([acc]) == LeBytes(acc);
      out := out + LeBytes(acc);
    }
    assert b[..|b|] == b;
    return Ok(out);
  }

  /** Delta-coded bytes decode to the values' bytes. */
  lemma DecodeInvertsEncode(values: seq<u32>)
    ensures DecodeSpec(PackU32s(Deltas(values))) == Ok(PackU32s(values))
  {
    UnpackPack32(Deltas(values));
    AccumulateDeltas(values);
  }
}
