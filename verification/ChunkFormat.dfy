/** The wire form of one chunk: a header, the stored streams, then the transform
    records in execution order. The printer is src/frame.rs:223-248; the parser is
    the purely syntactic part of src/frame.rs:256-306 and 371-410. Limits and map
    checks are the business of module ChunkMachine. */
module ChunkFormat {
  import opened Basics
  import opened Varint

  datatype StoredStream = StoredStream(streamId: nat, payload: bytes)

  datatype Transform = Transform(transformId: nat, inputs: seq<nat>, outputs: seq<nat>, privateHeader: bytes)

  /** A decode program: everything a serialized chunk says. */
  datatype Program = Program(
    numElements: nat,
    slotCount: nat,
    finalId: nat,
    stored: seq<StoredStream>,
    transforms: seq<Transform>)

  // ----- repetition -----------------------------------------------------------

  type Parser<!T> = bytes -> Result<(T, bytes)>

  /** `k` items in a row. */
  function Many<T>(parse: Parser<T>, s: bytes, k: nat): (r: Result<(seq<T>, bytes)>)
    ensures r.Ok? ==> |r.value.0| == k
  {
    if k == 0 then Ok(([], s))
    else
      var (xs, rest) :- Many(parse, s, k - 1);
      var (x, rest') :- parse(rest);
      Ok((xs + [x], rest'))
  }

  function Concat<T>(emit: T -> bytes, xs: seq<T>): bytes {
    if xs == [] then [] else Concat(emit, xs[..|xs| - 1]) + emit(xs[|xs| - 1])
  }

  /** Whatever is parsed was printed, and whatever is printed parses back, with any suffix left over. */
  ghost predicate Inverse<T(!new)>(parse: Parser<T>, emit: T -> bytes, ok: T -> bool) {
    && (forall s :: parse(s).Ok? ==> ok(parse(s).value.0) && s == emit(parse(s).value.0) + parse(s).value.1)
    && (forall x, rest: bytes :: ok(x) ==> parse(emit(x) + rest) == Ok((x, rest)))
  }

  ghost predicate AllOk<T>(ok: T -> bool, xs: seq<T>) {
    forall i | 0 <= i < |xs| :: ok(xs[i])
  }

  lemma {:induction false} ManyInverse<T(!new)>(parse: Parser<T>, emit: T -> bytes, ok: T -> bool, s: bytes, xs: seq<T>, rest: bytes)
    requires Inverse(parse, emit, ok)
    ensures Many(parse, s, |xs|) == Ok((xs, rest)) <==> AllOk(ok, xs) && s == Concat(emit, xs) + rest
    decreases |xs|
  {
    if xs == [] {
      assert Many(parse, s, 0) == Ok(([], s));
      assert Concat(emit, xs) + rest == rest;
    } else {
      var n := |xs| - 1;
      var x := xs[n];
      assert xs == xs[..n] + [x];
      if Many(parse, s, n + 1) == Ok((xs, rest)) {
        var (ys, mid) := Many(parse, s, n).value;
        assert ys == xs[..n] && parse(mid) == Ok((x, rest));
        ManyInverse(parse, emit, ok, s, xs[..n], mid);
        assert s == Concat(emit, xs[..n]) + (emit(x) + rest);
      }
      if AllOk(ok, xs) && s == Concat(emit, xs) + rest {
        var mid := emit(x) + rest;
        assert s == Concat(emit, xs[..n]) + mid;
        ManyInverse(parse, emit, ok, s, xs[..n], mid);
        assert ok(x) && parse(mid) == Ok((x, rest));
      }
    }
  }

  /** A run of items that parses begins with shorter runs that parse to its prefixes. */
  lemma {:induction false} ManyPrefix<T>(parse: Parser<T>, s: bytes, j: nat, k: nat)
    requires j <= k && Many(parse, s, k).Ok?
    ensures Many(parse, s, j).Ok? && Many(parse, s, j).value.0 == Many(parse, s, k).value.0[..j]
    decreases k
  {
    if j < k {
      ManyPrefix(parse, s, j, k - 1);
    }
  }

  // ----- the printer ----------------------------------------------------------

  function PrintIds(ids: seq<nat>): bytes {
    Concat(Leb, ids)
  }

  function PrintStored(s: StoredStream): bytes {
    Leb(s.streamId) + (Leb(|s.payload|) + s.payload)
  }

  function PrintTransform(t: Transform): bytes {
    Leb(t.transformId)
    + (Leb(|t.inputs|) + (PrintIds(t.inputs)
    + (Leb(|t.outputs|) + (PrintIds(t.outputs)
    + (Leb(|t.privateHeader|) + t.privateHeader)))))
  }

  function PrintHeader(p: Program): bytes {
    Leb(p.numElements) + (Leb(p.slotCount) + (Leb(|p.stored|) + (Leb(|p.transforms|) + Leb(p.finalId))))
  }

  function PrintProgram(p: Program): bytes {
    PrintHeader(p) + (Concat(PrintStored, p.stored) + Concat(PrintTransform, p.transforms))
  }

  // ----- what 64-bit fields can carry -----------------------------------------

  predicate StoredFits(s: StoredStream) {
    IsU64(s.streamId) && IsU64(|s.payload|)
  }

  predicate TransformFits(t: Transform) {
    && IsU64(t.transformId) && IsU64(|t.inputs|) && IsU64(|t.outputs|) && IsU64(|t.privateHeader|)
    && (forall i | 0 <= i < |t.inputs| :: IsU64(t.inputs[i]))
    && (forall i | 0 <= i < |t.outputs| :: IsU64(t.outputs[i]))
  }

  predicate HeaderFits(p: Program) {
    IsU64(p.numElements) && IsU64(p.slotCount) && IsU64(|p.stored|) && IsU64(|p.transforms|) && IsU64(p.finalId)
  }

  predicate Fits(p: Program) {
    && HeaderFits(p)
    && (forall i | 0 <= i < |p.stored| :: StoredFits(p.stored[i]))
    && (forall i | 0 <= i < |p.transforms| :: TransformFits(p.transforms[i]))
  }

  // ----- the parser -----------------------------------------------------------

  function ParseBlock(s: bytes): Result<(bytes, bytes)> {
    var (len, rest) :- ParseVarint(s);
    if len <= |rest| then Ok((rest[..len], rest[len..])) else Err
  }

  function ParseIds(s: bytes): Result<(seq<nat>, bytes)> {
    var (count, rest) :- ParseVarint(s);
    Many(ParseVarint, rest, count)
  }

  function ParseStored(s: bytes): Result<(StoredStream, bytes)> {
    var (id, r1) :- ParseVarint(s);
    var (payload, r2) :- ParseBlock(r1);
    Ok((StoredStream(id, payload), r2))
  }

  function ParseTransform(s: bytes): Result<(Transform, bytes)> {
    var (id, r1) :- ParseVarint(s);
    var (inputs, r2) :- ParseIds(r1);
    var (outputs, r3) :- ParseIds(r2);
    var (header, r4) :- ParseBlock(r3);
    Ok((Transform(id, inputs, outputs, header), r4))
  }

  datatype Header = Header(numElements: nat, slotCount: nat, storedCount: nat, transformCount: nat, finalId: nat)

  function ParseHeader(s: bytes): Result<(Header, bytes)> {
    var (n, r1) :- ParseVarint(s);
    var (slotCount, r2) :- ParseVarint(r1);
    var (storedCount, r3) :- ParseVarint(r2);
    var (transformCount, r4) :- ParseVarint(r3);
    var (finalId, r5) :- ParseVarint(r4);
    Ok((Header(n, slotCount, storedCount, transformCount, finalId), r5))
  }

  function ParseProgram(s: bytes): Result<(Program, bytes)> {
    var (h, r1) :- ParseHeader(s);
    var (stored, r2) :- Many(ParseStored, r1, h.storedCount);
    var (transforms, r3) :- Many(ParseTransform, r2, h.transformCount);
    Ok((Program(h.numElements, h.slotCount, h.finalId, stored, transforms), r3))
  }

  // ----- the parser and the printer undo each other ---------------------------

  lemma VarintInverse()
    ensures Inverse(ParseVarint, Leb, IsU64)
  {
    forall s | ParseVarint(s).Ok?
      ensures IsU64(ParseVarint(s).value.0) && s == Leb(ParseVarint(s).value.0) + ParseVarint(s).value.1
    {
      VarintBijection(s, ParseVarint(s).value.0, ParseVarint(s).value.1);
    }
    forall x: nat, rest: bytes | IsU64(x) ensures ParseVarint(Leb(x) + rest) == Ok((x, rest)) {
      VarintBijection(Leb(x) + rest, x, rest);
    }
  }

  lemma BlockInverse(s: bytes, b: bytes, rest: bytes)
    ensures ParseBlock(s) == Ok((b, rest)) <==> IsU64(|b|) && s == Leb(|b|) + (b + rest)
  {
    var n, tail := |b|, b + rest;
    assert tail[..n] == b && tail[n..] == rest;
    VarintBijection(s, n, tail);
    if ParseBlock(s) == Ok((b, rest)) {
      var (len, t) := ParseVarint(s).value;
      assert t == t[..len] + t[len..];
    }
  }

  lemma IdsInverse(s: bytes, ids: seq<nat>, rest: bytes)
    ensures ParseIds(s) == Ok((ids, rest)) <==>
            IsU64(|ids|) && AllOk(IsU64, ids) && s == Leb(|ids|) + (PrintIds(ids) + rest)
  {
    VarintInverse();
    VarintBijection(s, |ids|, PrintIds(ids) + rest);
    ManyInverse(ParseVarint, Leb, IsU64, PrintIds(ids) + rest, ids, rest);
    if ParseIds(s) == Ok((ids, rest)) {
      var (count, tail) := ParseVarint(s).value;
      VarintBijection(s, count, tail);
      ManyInverse(ParseVarint, Leb, IsU64, tail, ids, rest);
    }
  }

  lemma StoredRoundTrip(s: bytes, x: StoredStream, rest: bytes)
    ensures ParseStored(s) == Ok((x, rest)) <==> StoredFits(x) && s == PrintStored(x) + rest
  {
    var r1 := Leb(|x.payload|) + (x.payload + rest);
    assert PrintStored(x) + rest == Leb(x.streamId) + r1;
    VarintBijection(s, x.streamId, r1);
    BlockInverse(r1, x.payload, rest);
    if ParseStored(s) == Ok((x, rest)) {
      var (id, tail) := ParseVarint(s).value;
      VarintBijection(s, id, tail);
      BlockInverse(tail, x.payload, rest);
    }
  }

  lemma TransformRoundTrip(s: bytes, t: Transform, rest: bytes)
    ensures ParseTransform(s) == Ok((t, rest)) <==> TransformFits(t) && s == PrintTransform(t) + rest
  {
    var r3 := Leb(|t.privateHeader|) + (t.privateHeader + rest);
    var r2 := Leb(|t.outputs|) + (PrintIds(t.outputs) + r3);
    var r1 := Leb(|t.inputs|) + (PrintIds(t.inputs) + r2);
    assert PrintTransform(t) + rest == Leb(t.transformId) + r1 by { TransformTail(t, rest); }
    if TransformFits(t) && s == Leb(t.transformId) + r1 {
      VarintBijection(s, t.transformId, r1);
      IdsInverse(r1, t.inputs, r2);
      IdsInverse(r2, t.outputs, r3);
      BlockInverse(r3, t.privateHeader, rest);
    }
    if ParseTransform(s) == Ok((t, rest)) {
      var (id, q1) := ParseVarint(s).value;
      var (inputs, q2) := ParseIds(q1).value;
      var (outputs, q3) := ParseIds(q2).value;
      VarintBijection(s, id, q1);
      IdsInverse(q1, inputs, q2);
      IdsInverse(q2, outputs, q3);
      BlockInverse(q3, t.privateHeader, rest);
    }
  }

  lemma TransformTail(t: Transform, rest: bytes)
    ensures PrintTransform(t) + rest ==
            Leb(t.transformId)
            + (Leb(|t.inputs|) + (PrintIds(t.inputs)
            + (Leb(|t.outputs|) + (PrintIds(t.outputs)
            + (Leb(|t.privateHeader|) + (t.privateHeader + rest))))))
  {
    var d0 := Leb(|t.privateHeader|) + t.privateHeader;
    var d1 := Leb(|t.outputs|) + (PrintIds(t.outputs) + d0);
    var d2 := Leb(|t.inputs|) + (PrintIds(t.inputs) + d1);
    assert d0 + rest == Leb(|t.privateHeader|) + (t.privateHeader + rest);
    assert d1 + rest == Leb(|t.outputs|) + (PrintIds(t.outputs) + (d0 + rest));
    assert d2 + rest == Leb(|t.inputs|) + (PrintIds(t.inputs) + (d1 + rest));
    assert (Leb(t.transformId) + d2) + rest == Leb(t.transformId) + (d2 + rest);
  }

  lemma RecordInverses()
    ensures Inverse(ParseStored, PrintStored, StoredFits)
    ensures Inverse(ParseTransform, PrintTransform, TransformFits)
  {
    forall s | ParseStored(s).Ok?
      ensures StoredFits(ParseStored(s).value.0) && s == PrintStored(ParseStored(s).value.0) + ParseStored(s).value.1
    {
      StoredRoundTrip(s, ParseStored(s).value.0, ParseStored(s).value.1);
    }
    forall x, rest: bytes | StoredFits(x) ensures ParseStored(PrintStored(x) + rest) == Ok((x, rest)) {
      StoredRoundTrip(PrintStored(x) + rest, x, rest);
    }
    forall s | ParseTransform(s).Ok?
      ensures TransformFits(ParseTransform(s).value.0)
              && s == PrintTransform(ParseTransform(s).value.0) + ParseTransform(s).value.1
    {
      TransformRoundTrip(s, ParseTransform(s).value.0, ParseTransform(s).value.1);
    }
    forall x, rest: bytes | TransformFits(x) ensures ParseTransform(PrintTransform(x) + rest) == Ok((x, rest)) {
      TransformRoundTrip(PrintTransform(x) + rest, x, rest);
    }
  }

  lemma HeaderRoundTrip(s: bytes, p: Program, rest: bytes)
    ensures ParseHeader(s) == Ok((Header(p.numElements, p.slotCount, |p.stored|, |p.transforms|, p.finalId), rest))
            <==> HeaderFits(p) && s == PrintHeader(p) + rest
  {
    var r4 := Leb(p.finalId) + rest;
    var r3 := Leb(|p.transforms|) + r4;
    var r2 := Leb(|p.stored|) + r3;
    var r1 := Leb(p.slotCount) + r2;
    assert PrintHeader(p) + rest == Leb(p.numElements) + r1 by {
      var d3 := Leb(|p.transforms|) + Leb(p.finalId);
      var d2 := Leb(|p.stored|) + d3;
      var d1 := Leb(p.slotCount) + d2;
      assert d3 + rest == r3;
      assert d2 + rest == Leb(|p.stored|) + (d3 + rest);
      assert d1 + rest == Leb(p.slotCount) + (d2 + rest);
      assert (Leb(p.numElements) + d1) + rest == Leb(p.numElements) + (d1 + rest);
    }
    if HeaderFits(p) && s == Leb(p.numElements) + r1 {
      VarintBijection(s, p.numElements, r1);
      VarintBijection(r1, p.slotCount, r2);
      VarintBijection(r2, |p.stored|, r3);
      VarintBijection(r3, |p.transforms|, r4);
      VarintBijection(r4, p.finalId, rest);
    }
    if ParseHeader(s).Ok? {
      var (n, q1) := ParseVarint(s).value;
      var (slotCount, q2) := ParseVarint(q1).value;
      var (storedCount, q3) := ParseVarint(q2).value;
      var (transformCount, q4) := ParseVarint(q3).value;
      var (finalId, q5) := ParseVarint(q4).value;
      VarintBijection(s, n, q1);
      VarintBijection(q1, slotCount, q2);
      VarintBijection(q2, storedCount, q3);
      VarintBijection(q3, transformCount, q4);
      VarintBijection(q4, finalId, q5);
    }
  }

  /** A chunk's bytes and its program determine each other: reading a serialized
      program gives it back and stops at its end whatever follows, and any program
      that is read re-serializes to the very bytes it was read from. */
  lemma ProgramRoundTrip(s: bytes, p: Program, rest: bytes)
    ensures ParseProgram(s) == Ok((p, rest)) <==> Fits(p) && s == PrintProgram(p) + rest
  {
    RecordInverses();
    var h := Header(p.numElements, p.slotCount, |p.stored|, |p.transforms|, p.finalId);
    var r2 := Concat(PrintTransform, p.transforms) + rest;
    var r1 := Concat(PrintStored, p.stored) + r2;
    assert PrintProgram(p) + rest == PrintHeader(p) + r1 by {
      var d := Concat(PrintStored, p.stored) + Concat(PrintTransform, p.transforms);
      assert d + rest == r1;
      assert (PrintHeader(p) + d) + rest == PrintHeader(p) + (d + rest);
    }
    HeaderRoundTrip(s, p, r1);
    ManyInverse(ParseStored, PrintStored, StoredFits, r1, p.stored, r2);
    ManyInverse(ParseTransform, PrintTransform, TransformFits, r2, p.transforms, rest);
    if ParseProgram(s) == Ok((p, rest)) {
      var (h', q1) := ParseHeader(s).value;
      var (stored, q2) := Many(ParseStored, q1, h'.storedCount).value;
      assert stored == p.stored && h' == h;
      HeaderRoundTrip(s, p, q1);
      ManyInverse(ParseStored, PrintStored, StoredFits, q1, p.stored, q2);
      ManyInverse(ParseTransform, PrintTransform, TransformFits, q2, p.transforms, rest);
    }
  }
}
