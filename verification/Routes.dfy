/** What the planner writes for each route, id by id: src/frame.rs:701-726, 776-855 and
    src/literal_dict.rs:42-96. */
module Routes {
  import opened Basics
  import opened Varint
  import opened ChunkFormat
  import opened FieldLzDecoder
  import opened Planner
  import opened ZstdCodec
  import LiteralDict
  import Transpose

  /** A raw stream of ten bytes or more is a zstd payload and a record that undoes it. */
  lemma ZstdRoute(z: Codec, data: bytes, width: nat, next: nat)
    requires |data| >= 10 && 1 <= width < 128
    ensures RawRoute(z, Item(data, width), next) ==
            Route([StoredStream(next, z.encode(data))], [Transform(22, [next], [next + 1], [width])], next + 1, next + 2)
  {
  }

  /** A shorter one is stored as it is. */
  lemma TinyRoute(z: Codec, data: bytes, width: nat, next: nat)
    requires |data| < 10
    ensures RawRoute(z, Item(data, width), next) == Route([StoredStream(next, data)], [], next, next + 1)
  {
  }

  lemma DictRouteWrites(z: Codec, data: bytes, width: nat, next: nat)
    requires (width == 1 || width == 2) && LiteralDict.Build(data, width).Some?
    ensures var c := LiteralDict.Build(data, width).value;
            DictRoute(z, c, next) ==
            Route([StoredStream(next, c.valueBytes), StoredStream(next + 1, z.encode(c.dictOrd))],
                  [Transform(22, [next + 1], [next + 2], [width]), Transform(1001, [next, next + 2], [next + 3], [width])],
                  next + 3, next + 4)
  {
    assert Leb(width) == [width];
    hide LiteralDict.DecodeSpec, LiteralDict.Build, Leb;
    LiteralDict.BuiltDecodes(data, width);
    BuiltIsLong(data, width);
    var c := LiteralDict.Build(data, width).value;
    var t, d := Transform(22, [next + 1], [next + 2], [width]), Transform(1001, [next, next + 2], [next + 3], [width]);
    assert [t] + [d] == [t, d];
  }

  lemma BuiltIsLong(data: bytes, width: nat)
    requires (width == 1 || width == 2) && LiteralDict.Build(data, width).Some?
    ensures |data| >= 256
  {
  }

  /** The first route, when the one-byte dictionary can be built and is chosen. */
  lemma OneByteDictTaken(z: Codec, policy: Policy, data: bytes, next: nat)
    requires LiteralDict.Build(data, 1).Some? && policy.dictU8(data)
    ensures var c := LiteralDict.Build(data, 1).value;
            LiteralRoute(z, policy, data, next) ==
            Route([StoredStream(next, c.valueBytes), StoredStream(next + 1, z.encode(c.dictOrd))],
                  [Transform(22, [next + 1], [next + 2], [1]), Transform(1001, [next, next + 2], [next + 3], [1])],
                  next + 3, next + 4)
  {
    hide LiteralDict.Build, DictRoute, Split4Route, RawRoute;
    DictRouteWrites(z, data, 1, next);
  }

  /** The second, when the first is not taken and the two-byte dictionary can be built and is chosen. */
  lemma TwoByteDictTaken(z: Codec, policy: Policy, data: bytes, next: nat)
    requires !(LiteralDict.Build(data, 1).Some? && policy.dictU8(data))
    requires LiteralDict.Build(data, 2).Some? && policy.dictU16(data)
    ensures var c := LiteralDict.Build(data, 2).value;
            LiteralRoute(z, policy, data, next) ==
            Route([StoredStream(next, c.valueBytes), StoredStream(next + 1, z.encode(c.dictOrd))],
                  [Transform(22, [next + 1], [next + 2], [2]), Transform(1001, [next, next + 2], [next + 3], [2])],
                  next + 3, next + 4)
  {
    hide LiteralDict.Build, DictRoute, Split4Route, RawRoute;
    DictRouteWrites(z, data, 2, next);
  }

  /** No dictionary can be built or is chosen. */
  predicate NoDict(policy: Policy, data: bytes) {
    && !(LiteralDict.Build(data, 1).Some? && policy.dictU8(data))
    && !(LiteralDict.Build(data, 2).Some? && policy.dictU16(data))
  }

  /** The third: four lanes, each through zstd, and the record that joins them. */
  lemma Split4Taken(z: Codec, policy: Policy, data: bytes, next: nat)
    requires NoDict(policy, data) && |data| >= 256 && |data| % 4 == 0 && policy.split4(data)
    ensures var l := Transpose.Split(data);
            LiteralRoute(z, policy, data, next) ==
            Route([StoredStream(next, z.encode(l.lane0)), StoredStream(next + 2, z.encode(l.lane1)),
                   StoredStream(next + 4, z.encode(l.lane2)), StoredStream(next + 6, z.encode(l.lane3))],
                  [Transform(22, [next], [next + 1], [1]), Transform(22, [next + 2], [next + 3], [1]),
                   Transform(22, [next + 4], [next + 5], [1]), Transform(22, [next + 6], [next + 7], [1]),
                   Transform(31, [next + 1, next + 3, next + 5, next + 7], [next + 8], [])],
                  next + 8, next + 9)
  {
    hide LiteralDict.Build, DictRoute, RawRoute, AddRaw, Transpose.Split;
    var l := Transpose.Split(data);
    LongLanes(data);
    var lanes := FourRaw(z, l, next);
  }

  lemma LongLanes(data: bytes)
    requires |data| >= 256
    ensures var l := Transpose.Split(data); |l.lane0| >= 10 && |l.lane1| >= 10 && |l.lane2| >= 10 && |l.lane3| >= 10
  {
    hide Transpose.LaneOf;
  }

  lemma AddRawLast(z: Codec, b: Bundle, items: seq<Item>, item: Item)
    ensures var before := AddRaw(z, b, items); AddRaw(z, b, items + [item]) == Add(before, RawRoute(z, item, before.next))
  {
    assert (items + [item])[..|items|] == items;
  }

  /** One more long stream of bytes. */
  lemma AddZstd(z: Codec, b: Bundle, items: seq<Item>, data: bytes)
    requires |data| >= 10
    ensures var before := AddRaw(z, b, items);
            AddRaw(z, b, items + [Item(data, 1)]) ==
            Bundle(before.stored + [StoredStream(before.next, z.encode(data))],
                   before.transforms + [Transform(22, [before.next], [before.next + 1], [1])],
                   before.outputs + [before.next + 1], before.next + 2)
  {
    hide AddRaw, RawRoute;
    AddRawLast(z, b, items, Item(data, 1));
    ZstdRoute(z, data, 1, AddRaw(z, b, items).next);
  }

  lemma FourRaw(z: Codec, l: Transpose.Lanes, next: nat) returns (b: Bundle)
    requires |l.lane0| >= 10 && |l.lane1| >= 10 && |l.lane2| >= 10 && |l.lane3| >= 10
    ensures b == AddRaw(z, Bundle([], [], [], next), [Item(l.lane0, 1), Item(l.lane1, 1), Item(l.lane2, 1), Item(l.lane3, 1)])
    ensures b == Bundle([StoredStream(next, z.encode(l.lane0)), StoredStream(next + 2, z.encode(l.lane1)),
                         StoredStream(next + 4, z.encode(l.lane2)), StoredStream(next + 6, z.encode(l.lane3))],
                        [Transform(22, [next], [next + 1], [1]), Transform(22, [next + 2], [next + 3], [1]),
                         Transform(22, [next + 4], [next + 5], [1]), Transform(22, [next + 6], [next + 7], [1])],
                        [next + 1, next + 3, next + 5, next + 7], next + 8)
  {
    hide AddRaw;
    var e := Bundle([], [], [], next);
    AddRawNone(z, e);
    var i0, i1, i2, i3 := Item(l.lane0, 1), Item(l.lane1, 1), Item(l.lane2, 1), Item(l.lane3, 1);
    AddZstd(z, e, [], l.lane0);
    assert [] + [i0] == [i0];
    AddZstd(z, e, [i0], l.lane1);
    assert [i0] + [i1] == [i0, i1];
    AddZstd(z, e, [i0, i1], l.lane2);
    assert [i0, i1] + [i2] == [i0, i1, i2];
    AddZstd(z, e, [i0, i1, i2], l.lane3);
    assert [i0, i1, i2] + [i3] == [i0, i1, i2, i3];
    b := AddRaw(z, e, [i0, i1, i2, i3]);
  }

  lemma AddRawNone(z: Codec, b: Bundle)
    ensures AddRaw(z, b, []) == b
  {
  }

  /** Otherwise the literals are one raw stream of four-byte values. */
  lemma RawTaken(z: Codec, policy: Policy, data: bytes, next: nat)
    requires NoDict(policy, data) && !(|data| >= 256 && |data| % 4 == 0 && policy.split4(data))
    ensures LiteralRoute(z, policy, data, next) ==
            if |data| >= 10
            then Route([StoredStream(next, z.encode(data))], [Transform(22, [next], [next + 1], [4])], next + 1, next + 2)
            else Route([StoredStream(next, data)], [], next, next + 1)
  {
    hide LiteralDict.Build, DictRoute, Split4Route;
    assert Leb(4) == [4];
  }

  // ----- whole graphs of short streams ------------------------------------------

  predicate Short(s: SideStreams) {
    && |s.literals| < 10 && |s.tokens| < 10 && |s.offsets| < 10
    && |s.extraLiteralLengths| < 10 && |s.extraMatchLengths| < 10
  }

  lemma ShortLiterals(z: Codec, policy: Policy, data: bytes)
    requires |data| < 10
    ensures LiteralRoute(z, policy, data, 0) == Route([StoredStream(0, data)], [], 0, 1)
  {
    hide LiteralDict.Accepts, LiteralDict.Distinct, LiteralDict.Indexes, LiteralDict.CodeStream;
    assert LiteralDict.Build(data, 1).None? && LiteralDict.Build(data, 2).None?;
  }

  lemma AddTiny(z: Codec, b: Bundle, items: seq<Item>, item: Item)
    requires |item.data| < 10
    ensures var before := AddRaw(z, b, items);
            AddRaw(z, b, items + [item]) ==
            Bundle(before.stored + [StoredStream(before.next, item.data)], before.transforms,
                   before.outputs + [before.next], before.next + 1)
  {
    hide AddRaw, RawRoute;
    AddRawLast(z, b, items, item);
    var before := AddRaw(z, b, items);
    TinyRoute(z, item.data, item.width, before.next);
    assert before.transforms + [] == before.transforms;
  }

  lemma ShortInputs(z: Codec, policy: Policy, s: SideStreams)
    requires Short(s)
    ensures Inputs(z, policy, s) ==
            Bundle([StoredStream(0, s.literals), StoredStream(1, s.tokens), StoredStream(2, s.offsets),
                    StoredStream(3, s.extraLiteralLengths), StoredStream(4, s.extraMatchLengths)],
                   [], [0, 1, 2, 3, 4], 5)
  {
    hide AddRaw, LiteralRoute;
    ShortLiterals(z, policy, s.literals);
    var e := Bundle([StoredStream(0, s.literals)], [], [0], 1);
    assert Add(Bundle([], [], [], 0), LiteralRoute(z, policy, s.literals, 0)) == e;
    var items := SideItems(s);
    AddRawNone(z, e);
    AddTiny(z, e, [], items[0]);
    assert [] + [items[0]] == [items[0]];
    AddTiny(z, e, [items[0]], items[1]);
    assert [items[0]] + [items[1]] == [items[0], items[1]];
    AddTiny(z, e, [items[0], items[1]], items[2]);
    assert [items[0], items[1]] + [items[2]] == [items[0], items[1], items[2]];
    AddTiny(z, e, [items[0], items[1], items[2]], items[3]);
    assert [items[0], items[1], items[2]] + [items[3]] == items;
  }

  /** The whole program of five short streams: five stored streams, one FieldLZ record, and the
      delta record when asked for. */
  lemma ShortPlan(z: Codec, policy: Policy, s: SideStreams, n: nat, delta: bool)
    requires Short(s) && n < 128
    ensures Plan(z, policy, s, n, delta) ==
            Program(n, if delta then 7 else 6, if delta then 6 else 5,
                    [StoredStream(0, s.literals), StoredStream(1, s.tokens), StoredStream(2, s.offsets),
                     StoredStream(3, s.extraLiteralLengths), StoredStream(4, s.extraMatchLengths)],
                    [Transform(24, [0, 1, 2, 3, 4], [5], [n])] + if delta then [Transform(1, [5], [6], [])] else [])
  {
    hide Inputs;
    ShortInputs(z, policy, s);
    assert Leb(n) == [n];
    var fieldLz := Transform(24, [0, 1, 2, 3, 4], [5], [n]);
    assert [] + [fieldLz] == [fieldLz] && [fieldLz] + [] == [fieldLz];
  }
}
