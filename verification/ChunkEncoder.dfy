/** Writing one chunk: src/frame.rs:166-249 and the graph builders of src/frame.rs:634-863
    and src/literal_dict.rs:42-96. */
module ChunkEncoder {
  import opened Basics
  import opened Varint
  import opened ChunkFormat
  import opened FieldLzDecoder
  import opened Planner
  import opened ZstdCodec
  import Delta
  import FieldLzEncoder
  import LiteralDict
  import Transpose

  type Chunk = FieldLzEncoder.Chunk

  /** The side streams a chunk is written with. */
  function ChunkStreams(policy: Policy, chunk: Chunk): SideStreams {
    if policy.literalOnly(chunk) then SideStreams(PackU32s(chunk), [], [], [], [])
    else if policy.delta(chunk) then Packed(FieldLzEncoder.EncodeStreams(Delta.Deltas(chunk)))
    else Packed(FieldLzEncoder.EncodeStreams(chunk))
  }

  /** The program a chunk is written as: literals alone, deltas, or the values themselves. */
  function ChunkPlan(z: Codec, policy: Policy, chunk: Chunk): Program {
    Plan(z, policy, ChunkStreams(policy, chunk), |chunk|, !policy.literalOnly(chunk) && policy.delta(chunk))
  }

  // ----- building graphs ------------------------------------------------------

  method EncodeRawSideStreamRoute(z: Codec, data: bytes, width: nat, next: nat) returns (r: Route)
    ensures r == RawRoute(z, Item(data, width), next)
  {
    var isZstd := |data| >= MIN_ZSTD_STREAM_SIZE;
    var payload := if isZstd then z.encode(data) else data;
    r := Route([StoredStream(next, payload)], [], next, next + 1);
    if isZstd {
      var decodedId := r.next;
      r := r.(transforms := r.transforms + [Transform(ZSTD_ID, [next], [decodedId], Leb(width))],
              output := decodedId, next := r.next + 1);
    }
  }

  /** Appends raw routes for several streams, handing out ids as it goes. */
  method AppendRawRoutes(z: Codec, items: seq<Item>, start: Bundle) returns (b: Bundle)
    ensures b == AddRaw(z, start, items)
  {
    hide RawRoute;
    b := start;
    for i := 0 to |items|
      invariant b == AddRaw(z, start, items[..i])
    {
      assert items[..i + 1][..i] == items[..i];
      var route := EncodeRawSideStreamRoute(z, items[i].data, items[i].width, b.next);
      b := Add(b, route);
    }
    assert items[..|items|] == items;
  }

  method BuildTransposedRoute(z: Codec, data: bytes, next: nat) returns (r: Route)
    requires |data| % U32_WIDTH == 0
    ensures r == Split4Route(z, data, next)
  {
    var lanes := Transpose.EncodeSplit4(data);
    var items := [Item(lanes.lane0, 1), Item(lanes.lane1, 1), Item(lanes.lane2, 1), Item(lanes.lane3, 1)];
    var b := AppendRawRoutes(z, items, Bundle([], [], [], next));
    var combine := Transform(TRANSPOSE_SPLIT4_ID, b.outputs, [b.next], []);
    return Route(b.stored, b.transforms + [combine], b.next, b.next + 1);
  }

  method BuildDictRoute(z: Codec, c: LiteralDict.Candidate, first: nat) returns (r: Route)
    ensures r == DictRoute(z, c, first)
  {
    var isZstd := |c.dictOrd| >= MIN_ZSTD_STREAM_SIZE;
    var payload := if isZstd then z.encode(c.dictOrd) else c.dictOrd;
    var next := first;
    var table := next;
    next := next + 1;
    var storedCodes := next;
    next := next + 1;
    var transforms: seq<Transform> := [];
    var codes := storedCodes;
    if isZstd {
      codes := next;
      next := next + 1;
      transforms := transforms + [Transform(ZSTD_ID, [storedCodes], [codes], Leb(c.codeWidth))];
    }
    var output := next;
    next := next + 1;
    transforms := transforms + [Transform(LITERAL_DICT_ID, [table, codes], [output], Leb(c.codeWidth))];
    return Route([StoredStream(table, c.valueBytes), StoredStream(storedCodes, payload)], transforms, output, next);
  }

  method EncodeLiteralRoute(z: Codec, policy: Policy, data: bytes, next: nat) returns (r: Route)
    ensures r == LiteralRoute(z, policy, data, next)
  {
    hide LiteralDict.Build, DictRoute, Split4Route, RawRoute;
    var u8s := LiteralDict.BuildCandidate(data, 1);
    if u8s.Some? && policy.dictU8(data) {
      r := BuildDictRoute(z, u8s.value, next);
      return;
    }
    var u16s := LiteralDict.BuildCandidate(data, 2);
    if u16s.Some? && policy.dictU16(data) {
      r := BuildDictRoute(z, u16s.value, next);
      return;
    }
    if Splittable(data) && policy.split4(data) {
      r := BuildTransposedRoute(z, data, next);
      return;
    }
    r := EncodeRawSideStreamRoute(z, data, U32_WIDTH, next);
  }

  /** The graph builder: literal route, four raw routes, FieldLZ, and a delta when asked for. */
  method BuildGraph(z: Codec, policy: Policy, s: SideStreams, n: nat, delta: bool) returns (p: Program)
    ensures p == Plan(z, policy, s, n, delta)
  {
    hide LiteralRoute, AddRaw;
    var literal := EncodeLiteralRoute(z, policy, s.literals, 0);
    var b := AppendRawRoutes(z, SideItems(s), Add(Bundle([], [], [], 0), literal));
    var next := b.next;
    var fieldLzOutput := next;
    next := next + 1;
    var transforms := b.transforms + [Transform(FIELD_LZ_ID, b.outputs, [fieldLzOutput], Leb(n))];
    var finalId := fieldLzOutput;
    if delta {
      finalId := next;
      next := next + 1;
      transforms := transforms + [Transform(DELTA_INT_ID, [fieldLzOutput], [finalId], [])];
    }
    return Program(n, next, finalId, b.stored, transforms);
  }

  // ----- serializing ----------------------------------------------------------

  method WriteIds(ids: seq<nat>, out: bytes) returns (r: bytes)
    requires forall i | 0 <= i < |ids| :: IsU64(ids[i])
    ensures r == out + PrintIds(ids)
  {
    hide Leb;
    r := out;
    for i := 0 to |ids|
      invariant r == out + PrintIds(ids[..i])
    {
      assert ids[..i + 1][..i] == ids[..i];
      r := WriteU64(ids[i], r);
    }
    assert ids[..|ids|] == ids;
  }

  method WriteStored(s: StoredStream, out: bytes) returns (r: bytes)
    requires StoredFits(s)
    ensures r == out + PrintStored(s)
  {
    hide Leb;
    r := WriteU64(s.streamId, out);
    r := WriteU64(|s.payload|, r);
    r := r + s.payload;
  }

  method WriteTransform(t: Transform, out: bytes) returns (r: bytes)
    requires TransformFits(t)
    ensures r == out + PrintTransform(t)
  {
    hide Leb, PrintIds;
    r := WriteU64(t.transformId, out);
    r := WriteU64(|t.inputs|, r);
    r := WriteIds(t.inputs, r);
    r := WriteU64(|t.outputs|, r);
    r := WriteIds(t.outputs, r);
    r := WriteU64(|t.privateHeader|, r);
    r := r + t.privateHeader;
  }

  method WriteHeader(p: Program) returns (r: bytes)
    requires HeaderFits(p)
    ensures r == PrintHeader(p)
  {
    hide Leb;
    r := WriteU64(p.numElements, []);
    r := WriteU64(p.slotCount, r);
    r := WriteU64(|p.stored|, r);
    r := WriteU64(|p.transforms|, r);
    r := WriteU64(p.finalId, r);
  }

  /** Header, stored streams, records: src/frame.rs:223-248. */
  method Serialize(p: Program) returns (r: bytes)
    requires Fits(p)
    ensures r == PrintProgram(p)
  {
    hide PrintHeader, PrintStored, PrintTransform, StoredFits, TransformFits;
    var header := WriteHeader(p);
    r := header;
    for i := 0 to |p.stored|
      invariant r == header + Concat(PrintStored, p.stored[..i])
    {
      assert p.stored[..i + 1][..i] == p.stored[..i];
      r := WriteStored(p.stored[i], r);
    }
    assert p.stored[..|p.stored|] == p.stored;
    var loaded := r;
    for i := 0 to |p.transforms|
      invariant r == loaded + Concat(PrintTransform, p.transforms[..i])
    {
      assert p.transforms[..i + 1][..i] == p.transforms[..i];
      r := WriteTransform(p.transforms[i], r);
    }
    assert p.transforms[..|p.transforms|] == p.transforms;
  }

  /** Encode a chunk under a policy: src/frame.rs:166-213. */
  method EncodeChunk(z: Codec, policy: Policy, chunk: Chunk) returns (p: Program)
    ensures p == ChunkPlan(z, policy, chunk)
  {
    hide Plan, Packed, FieldLzEncoder.EncodeStreams, Delta.Deltas, PackU32s;
    if policy.literalOnly(chunk) {
      var literals := AppendU32s(chunk, []);
      assert literals == PackU32s(chunk);
      p := BuildGraph(z, policy, SideStreams(literals, [], [], [], []), |chunk|, false);
    } else if policy.delta(chunk) {
      var deltas := Delta.EncodeU32Deltas(chunk);
      var streams := FieldLzEncoder.EncodeU32ToSideStreams(deltas);
      p := BuildGraph(z, policy, streams.value, |chunk|, true);
    } else {
      var streams := FieldLzEncoder.EncodeU32ToSideStreams(chunk);
      p := BuildGraph(z, policy, streams.value, |chunk|, false);
    }
  }
}
