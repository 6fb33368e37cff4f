/** The guards around the zstd library: src/zstd_codec.rs:31-72. The library itself is
    a parameter; Contract says all that is asked of it. */
module ZstdCodec {
  import opened Basics

  /** The library's compressor, frame-header reader and decompressor. */
  datatype Codec = Codec(
    encode: bytes -> bytes,
    contentSize: bytes -> Result<nat>,
    decompress: bytes -> Result<bytes>)

  /** A frame written with its content size decompresses to what was written, is not
      empty, and is no longer than a buffer can be. */
  ghost predicate Contract(z: Codec) {
    forall b: bytes | |b| <= MAX_CHUNK_BYTES ::
      var frame := z.encode(b);
      && 0 < |frame| < U64_LIMIT
      && z.contentSize(frame) == Ok(|b|)
      && z.decompress(frame) == Ok(b)
  }

  function DecodeMagicless(z: Codec, src: bytes, width: nat): (r: Result<bytes>)
    ensures r.Ok? ==> width != 0 && |r.value| % width == 0 && |r.value| <= MAX_CHUNK_BYTES
  {
    if src == [] || width == 0 then Err
    else
      var size :- z.contentSize(src);
      if size > MAX_CHUNK_BYTES || size % width != 0 then Err
      else
        var output :- z.decompress(src);
        if |output| != size then Err else Ok(output)
  }

  /** What decoding accepts: a non-empty payload whose frame declares the size it decompresses to,
      within 16 MiB and a whole number of elements of a non-zero width. */
  lemma DecodesExactlyWhen(z: Codec, src: bytes, width: nat, data: bytes)
    ensures DecodeMagicless(z, src, width) == Ok(data) <==>
            && src != [] && width != 0 && |data| % width == 0 && |data| <= 16_777_216
            && z.contentSize(src) == Ok(|data|) && z.decompress(src) == Ok(data)
  {
  }

  lemma DecodeInvertsEncode(z: Codec, b: bytes, width: nat)
    requires Contract(z) && |b| <= MAX_CHUNK_BYTES && width != 0 && |b| % width == 0
    ensures DecodeMagicless(z, z.encode(b), width) == Ok(b)
  {
  }

  /** The contract can be met: a codec that only prefixes a byte meets it. */
  lemma ContractCanBeMet()
    ensures exists z :: Contract(z)
  {
    var z := Codec(b => [0] + b,
                   f => if f == [] then Err else Ok(|f| - 1),
                   f => if f == [] then Err else Ok(f[1..]));
    forall b: bytes | |b| <= MAX_CHUNK_BYTES
      ensures var frame := z.encode(b);
              0 < |frame| < U64_LIMIT && z.contentSize(frame) == Ok(|b|) && z.decompress(frame) == Ok(b)
    {
      assert z.encode(b)[1..] == b;
    }
    assert Contract(z);
  }
}
