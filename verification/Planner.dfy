/** The encoder's decode graphs: src/frame.rs:634-863 and src/literal_dict.rs:42-96. Which
    route is worth taking is left to a policy of free choices. */
module Planner {
  import opened Basics
  import opened Varint
  import opened ChunkFormat
  import opened FieldLzDecoder
  import opened ZstdCodec
  import LiteralDict
  import Transpose

  /** The encoder's heuristics, as arbitrary functions of what they look at. */
  datatype Policy = Policy(
    literalOnly: seq<u32> -> bool,
    delta: seq<u32> -> bool,
    dictU8: bytes -> bool,
    dictU16: bytes -> bool,
    split4: bytes -> bool)

  /** One side stream's records, the slot its bytes end up in, and the next free id. */
  datatype Route = Route(stored: seq<StoredStream>, transforms: seq<Transform>, output: nat, next: nat)

  /** Records gathered so far, the slots of the streams they deliver, and the next free id. */
  datatype Bundle = Bundle(stored: seq<StoredStream>, transforms: seq<Transform>, outputs: seq<nat>, next: nat)

  /** A stream to deliver: its bytes and its element width. */
  datatype Item = Item(data: bytes, width: nat)

  /** Tiny streams are stored as they are, others through zstd: src/frame.rs:776-819. */
  function RawRoute(z: Codec, item: Item, next: nat): Route {
    if |item.data| < MIN_ZSTD_STREAM_SIZE then
      Route([StoredStream(next, item.data)], [], next, next + 1)
    else
      Route([StoredStream(next, z.encode(item.data))],
            [Transform(ZSTD_ID, [next], [next + 1], Leb(item.width))],
            next + 1, next + 2)
  }

  function Add(b: Bundle, r: Route): Bundle {
    Bundle(b.stored + r.stored, b.transforms + r.transforms, b.outputs + [r.output], r.next)
  }

  function AddRaw(z: Codec, b: Bundle, items: seq<Item>): Bundle {
    if items == [] then b
    else
      var before := AddRaw(z, b, items[..|items| - 1]);
      Add(before, RawRoute(z, items[|items| - 1], before.next))
  }

  function LaneItems(data: bytes): seq<Item> {
    var l := Transpose.Split(data);
    [Item(l.lane0, 1), Item(l.lane1, 1), Item(l.lane2, 1), Item(l.lane3, 1)]
  }

  /** Four byte lanes, each on its own route, recombined: src/frame.rs:821-855. */
  function Split4Route(z: Codec, data: bytes, next: nat): Route {
    var lanes := AddRaw(z, Bundle([], [], [], next), LaneItems(data));
    Route(lanes.stored,
          lanes.transforms + [Transform(TRANSPOSE_SPLIT4_ID, lanes.outputs, [lanes.next], [])],
          lanes.next, lanes.next + 1)
  }

  /** The table stored, the codes on a raw route, and the lookup: src/literal_dict.rs:42-96. */
  function DictRoute(z: Codec, c: LiteralDict.Candidate, next: nat): Route {
    var isZstd := |c.dictOrd| >= MIN_ZSTD_STREAM_SIZE;
    var payload := if isZstd then z.encode(c.dictOrd) else c.dictOrd;
    var table, stored := next, next + 1;
    var codes := if isZstd then next + 2 else stored;
    var output := if isZstd then next + 3 else next + 2;
    Route([StoredStream(table, c.valueBytes), StoredStream(stored, payload)],
          (if isZstd then [Transform(ZSTD_ID, [stored], [codes], Leb(c.codeWidth))] else [])
          + [Transform(LITERAL_DICT_ID, [table, codes], [output], Leb(c.codeWidth))],
          output, output + 1)
  }

  /** Streams the transpose gate looks at: src/transpose.rs:11-16. */
  predicate Splittable(data: bytes) {
    |data| >= 256 && |data| % U32_WIDTH == 0
  }

  /** src/frame.rs:701-726 */
  function LiteralRoute(z: Codec, policy: Policy, data: bytes, next: nat): Route {
    var u8s := LiteralDict.Build(data, 1);
    if u8s.Some? && policy.dictU8(data) then DictRoute(z, u8s.value, next)
    else
      var u16s := LiteralDict.Build(data, 2);
      if u16s.Some? && policy.dictU16(data) then DictRoute(z, u16s.value, next)
      else if Splittable(data) && policy.split4(data) then Split4Route(z, data, next)
      else RawRoute(z, Item(data, U32_WIDTH), next)
  }

  function SideItems(s: SideStreams): seq<Item> {
    [Item(s.tokens, 2), Item(s.offsets, 4), Item(s.extraLiteralLengths, 4), Item(s.extraMatchLengths, 4)]
  }

  /** Everything FieldLZ reads: the literal route, then the other four streams on raw routes. */
  function Inputs(z: Codec, policy: Policy, s: SideStreams): Bundle {
    var literal := LiteralRoute(z, policy, s.literals, 0);
    AddRaw(z, Add(Bundle([], [], [], 0), literal), SideItems(s))
  }

  /** The whole graph: src/frame.rs:634-699. */
  function Plan(z: Codec, policy: Policy, s: SideStreams, n: nat, delta: bool): Program {
    var b := Inputs(z, policy, s);
    var fieldLz := Transform(FIELD_LZ_ID, b.outputs, [b.next], Leb(n));
    if delta then
      Program(n, b.next + 2, b.next + 1, b.stored,
              b.transforms + [fieldLz] + [Transform(DELTA_INT_ID, [b.next], [b.next + 1], [])])
    else
      Program(n, b.next + 1, b.next, b.stored, b.transforms + [fieldLz])
  }
}
