/** Every planned graph, whatever the policy, is accepted by the reader and hands FieldLZ
    exactly the five side streams. */
module PlannerSound {
  import opened Basics
  import opened Varint
  import opened ChunkFormat
  import opened ChunkMachine
  import opened FieldLzDecoder
  import opened Planner
  import opened ZstdCodec
  import Delta
  import LiteralDict
  import Transpose

  // ----- locality: records do the same wherever their slots are ----------------

  function ShiftIds(ids: seq<nat>, base: nat): (r: seq<nat>)
    ensures |r| == |ids| && forall i | 0 <= i < |ids| :: r[i] == ids[i] + base
  {
    seq(|ids|, i requires 0 <= i < |ids| => ids[i] + base)
  }

  function Shift(t: Transform, base: nat): Transform {
    t.(inputs := ShiftIds(t.inputs, base), outputs := ShiftIds(t.outputs, base))
  }

  function ShiftAll(ts: seq<Transform>, base: nat): (r: seq<Transform>)
    ensures |r| == |ts|
  {
    if ts == [] then [] else ShiftAll(ts[..|ts| - 1], base) + [Shift(ts[|ts| - 1], base)]
  }

  function ShiftStored(ss: seq<StoredStream>, base: nat): (r: seq<StoredStream>)
    ensures |r| == |ss|
  {
    if ss == [] then []
    else ShiftStored(ss[..|ss| - 1], base) + [StoredStream(ss[|ss| - 1].streamId + base, ss[|ss| - 1].payload)]
  }

  lemma StoreOneLocal(pre: Slots, mid: Slots, post: Slots, s: StoredStream)
    requires StoreOne(mid, s).Ok?
    ensures StoreOne(pre + mid + post, StoredStream(s.streamId + |pre|, s.payload)) == Ok(pre + StoreOne(mid, s).value + post)
  {
    var whole, id := pre + mid + post, s.streamId + |pre|;
    assert whole[id] == mid[s.streamId];
    assert whole[id := mid[s.streamId].(content := Some(s.payload))] == pre + StoreOne(mid, s).value + post;
  }

  lemma {:induction false} StoreLocal(pre: Slots, mid: Slots, post: Slots, ss: seq<StoredStream>)
    requires StoreAll(mid, ss).Ok?
    ensures StoreAll(pre + mid + post, ShiftStored(ss, |pre|)) == Ok(pre + StoreAll(mid, ss).value + post)
  {
    if ss != [] {
      hide StoreOne;
      var init, last := ss[..|ss| - 1], ss[|ss| - 1];
      StoreLocal(pre, mid, post, init);
      StoreOneLocal(pre, StoreAll(mid, init).value, post, last);
      assert ShiftStored(ss, |pre|)[..|ss| - 1] == ShiftStored(init, |pre|);
    }
  }

  lemma GatherLocal(pre: Slots, mid: Slots, post: Slots, ids: seq<nat>)
    requires InputsReady(mid, ids)
    ensures InputsReady(pre + mid + post, ShiftIds(ids, |pre|))
    ensures Gather(pre + mid + post, ShiftIds(ids, |pre|)) == Gather(mid, ids)
  {
    var whole, shifted := pre + mid + post, ShiftIds(ids, |pre|);
    forall i | 0 <= i < |ids| ensures shifted[i] < |whole| && whole[shifted[i]] == mid[ids[i]] {
    }
  }

  lemma MarkLocal(pre: Slots, mid: Slots, post: Slots, ids: seq<nat>)
    requires forall i | 0 <= i < |ids| :: ids[i] < |mid|
    ensures forall i | 0 <= i < |ids| :: ShiftIds(ids, |pre|)[i] < |pre + mid + post|
    ensures MarkUsed(pre + mid + post, ShiftIds(ids, |pre|)) == pre + MarkUsed(mid, ids) + post
  {
    forall x: nat | x < |pre + mid + post|
      ensures MarkUsed(pre + mid + post, ShiftIds(ids, |pre|))[x] == (pre + MarkUsed(mid, ids) + post)[x]
    {
      MarkedAt(pre, mid, post, ids, x);
    }
  }

  lemma MarkedAt(pre: Slots, mid: Slots, post: Slots, ids: seq<nat>, x: nat)
    requires forall i | 0 <= i < |ids| :: ids[i] < |mid|
    requires x < |pre + mid + post|
    requires forall i | 0 <= i < |ids| :: ShiftIds(ids, |pre|)[i] < |pre + mid + post|
    ensures MarkUsed(pre + mid + post, ShiftIds(ids, |pre|))[x] == (pre + MarkUsed(mid, ids) + post)[x]
  {
    hide MarkUsed;
    ShiftedIn(ids, |pre|, x);
    if x < |pre| {
      assert (pre + mid + post)[x] == pre[x];
    } else if x < |pre| + |mid| {
      assert (pre + mid + post)[x] == mid[x - |pre|];
    } else {
      assert x - |pre| !in ids;
    }
  }

  lemma ShiftedIn(ids: seq<nat>, base: nat, x: nat)
    ensures x in ShiftIds(ids, base) <==> base <= x && x - base in ids
  {
    if base <= x && x - base in ids {
      var i :| 0 <= i < |ids| && ids[i] == x - base;
      assert ShiftIds(ids, base)[i] == x;
    }
  }

  lemma OutputsLocal(pre: Slots, mid: Slots, post: Slots, ids: seq<nat>)
    requires OutputsFree(mid, ids)
    ensures OutputsFree(pre + mid + post, ShiftIds(ids, |pre|))
  {
    var whole, shifted := pre + mid + post, ShiftIds(ids, |pre|);
    forall i | 0 <= i < |ids| ensures shifted[i] < |whole| && whole[shifted[i]] == mid[ids[i]] {
    }
  }

  lemma ExecuteIgnoresIds(z: Codec, n: nat, ins: seq<Typed>, t: Transform, base: nat)
    ensures Execute(z, n, ins, Shift(t, base)) == Execute(z, n, ins, t)
  {
  }

  lemma StepLocal(z: Codec, n: nat, pre: Slots, mid: Slots, post: Slots, t: Transform)
    requires Step(z, n, mid, t).Ok?
    ensures Step(z, n, pre + mid + post, Shift(t, |pre|)) == Ok(pre + Step(z, n, mid, t).value + post)
  {
    hide Execute;
    GatherLocal(pre, mid, post, t.inputs);
    OutputsLocal(pre, mid, post, t.outputs);
    MarkLocal(pre, mid, post, t.inputs);
    ExecuteIgnoresIds(z, n, Gather(mid, t.inputs), t, |pre|);
    var out := Execute(z, n, Gather(mid, t.inputs), t).value;
    SetLocal(pre, MarkUsed(mid, t.inputs), post, t.outputs[0], out);
  }

  lemma SetLocal(pre: Slots, mid: Slots, post: Slots, id: nat, out: Output)
    requires id < |mid|
    ensures var whole, at := pre + mid + post, id + |pre|;
            whole[at := whole[at].(content := Some(out.data), width := Some(out.width))]
            == pre + mid[id := mid[id].(content := Some(out.data), width := Some(out.width))] + post
  {
    assert (pre + mid + post)[id + |pre|] == mid[id];
  }

  /** A run over a segment of the table is the same run anywhere in a larger table. */
  lemma {:induction false} RunLocal(z: Codec, n: nat, pre: Slots, mid: Slots, post: Slots, ts: seq<Transform>)
    requires RunAll(z, n, mid, ts).Ok?
    ensures RunAll(z, n, pre + mid + post, ShiftAll(ts, |pre|)) == Ok(pre + RunAll(z, n, mid, ts).value + post)
  {
    if ts != [] {
      hide Step;
      var init, last := ts[..|ts| - 1], ts[|ts| - 1];
      RunLocal(z, n, pre, mid, post, init);
      StepLocal(z, n, pre, RunAll(z, n, mid, init).value, post, last);
      assert ShiftAll(ts, |pre|)[..|ts| - 1] == ShiftAll(init, |pre|);
    }
  }

  lemma {:induction false} ShiftByZero(ts: seq<Transform>, ss: seq<StoredStream>)
    ensures ShiftAll(ts, 0) == ts && ShiftStored(ss, 0) == ss
    decreases |ts| + |ss|
  {
    if ts != [] {
      var last := ts[|ts| - 1];
      ShiftByZero(ts[..|ts| - 1], ss);
      assert ShiftIds(last.inputs, 0) == last.inputs && ShiftIds(last.outputs, 0) == last.outputs;
    } else if ss != [] {
      ShiftByZero(ts, ss[..|ss| - 1]);
    }
  }

  // ----- bundles that deliver ---------------------------------------------------

  predicate ItemOk(item: Item) {
    && 1 <= item.width <= 4
    && |item.data| <= MAX_CHUNK_BYTES && |item.data| % item.width == 0
  }

  /** What a transform gathers from slots that hold the items. */
  predicate Matches(ins: seq<Typed>, items: seq<Item>) {
    && |ins| == |items|
    && forall i | 0 <= i < |items| :: ins[i].data == items[i].data && ins[i].Allows(items[i].width)
  }

  predicate Holds(slot: Slot, item: Item) {
    slot.content == Some(item.data) && !slot.used && (slot.width.None? || slot.width.value == item.width)
  }

  /** `after` has every item in its output slot, unread, and everything else read. */
  ghost predicate Holding(outputs: seq<nat>, items: seq<Item>, after: Slots) {
    && |outputs| == |items|
    && (forall i | 0 <= i < |items| :: outputs[i] < |after| && Holds(after[outputs[i]], items[i]))
    && (forall x: nat | x < |after| :: after[x].content.Some? && (after[x].used || x in outputs))
  }

  /** The bundle's streams load, and its records run, to a table that holds the items. */
  ghost predicate Delivers(z: Codec, n: nat, b: Bundle, items: seq<Item>, before: Slots, after: Slots) {
    && |before| == b.next
    && StoreAll(EmptySlots(b.next), b.stored) == Ok(before)
    && RunAll(z, n, before, b.transforms) == Ok(after)
    && Holding(b.outputs, items, after)
  }

  /** Records no FieldLZ, writes below the next id, and is small enough to print. */
  predicate Modest(t: Transform, next: nat) {
    t.transformId != FIELD_LZ_ID && |t.outputs| == 1 && t.outputs[0] < next && TransformFits(t)
  }

  predicate Tidy(b: Bundle) {
    && |b.stored| <= b.next <= 100 && |b.transforms| <= b.next && |b.outputs| <= 5
    && (forall i | 0 <= i < |b.outputs| :: b.outputs[i] < b.next)
    && (forall i | 0 <= i < |b.stored| :: StoredFits(b.stored[i]))
    && (forall k | 0 <= k < |b.transforms| :: Modest(b.transforms[k], b.next))
  }

  /** A raw route on its own, at id zero. */
  lemma RawRouteRuns(z: Codec, n: nat, item: Item) returns (before: Slots, after: Slots)
    requires Contract(z) && ItemOk(item)
    ensures Delivers(z, n, Add(Bundle([], [], [], 0), RawRoute(z, item, 0)), [item], before, after)
  {
    hide StoreAll, RunAll;
    var r := RawRoute(z, item, 0);
    AddToNothing(r);
    if |item.data| < MIN_ZSTD_STREAM_SIZE {
      before := [Slot(Some(item.data), false, None)];
      after := before;
      TinyStores(item.data);
      NoSteps(z, n, before);
      HoldsOne(0, item, after);
    } else {
      var frame := z.encode(item.data);
      before := [Slot(Some(frame), false, None), EMPTY_SLOT];
      after := [Slot(Some(frame), true, None), Slot(Some(item.data), false, Some(item.width))];
      ZstdStores(frame);
      ZstdRuns(z, n, item);
      HoldsOne(1, item, after);
    }
  }

  lemma AddToNothing(r: Route)
    ensures Add(Bundle([], [], [], 0), r) == Bundle(r.stored, r.transforms, [r.output], r.next)
  {
    assert [] + r.stored == r.stored && [] + r.transforms == r.transforms;
  }

  lemma NoSteps(z: Codec, n: nat, slots: Slots)
    ensures RunAll(z, n, slots, []) == Ok(slots)
  {
  }

  lemma HoldsOne(output: nat, item: Item, after: Slots)
    requires output < |after| && Holds(after[output], item)
    requires forall x: nat | x < |after| :: after[x].content.Some? && (after[x].used || x == output)
    ensures Holding([output], [item], after)
  {
  }

  lemma OneStore(slots: Slots, s: StoredStream)
    ensures StoreAll(slots, [s]) == StoreOne(slots, s)
  {
    hide StoreOne;
    assert StoreAll(slots, [s][..0]) == Ok(slots);
  }

  lemma TinyStores(data: bytes)
    ensures StoreAll(EmptySlots(1), [StoredStream(0, data)]) == Ok([Slot(Some(data), false, None)])
  {
    OneStore(EmptySlots(1), StoredStream(0, data));
    assert EmptySlots(1)[0 := Slot(Some(data), false, None)] == [Slot(Some(data), false, None)];
  }

  lemma ZstdStores(frame: bytes)
    ensures StoreAll(EmptySlots(2), [StoredStream(0, frame)]) == Ok([Slot(Some(frame), false, None), EMPTY_SLOT])
  {
    OneStore(EmptySlots(2), StoredStream(0, frame));
    assert EmptySlots(2)[0 := Slot(Some(frame), false, None)] == [Slot(Some(frame), false, None), EMPTY_SLOT];
  }

  lemma OneStep(z: Codec, n: nat, slots: Slots, t: Transform)
    ensures RunAll(z, n, slots, [t]) == Step(z, n, slots, t)
  {
    hide Step;
    assert RunAll(z, n, slots, [t][..0]) == Ok(slots);
  }

  lemma ZstdRuns(z: Codec, n: nat, item: Item)
    requires Contract(z) && ItemOk(item)
    ensures var frame := z.encode(item.data);
            RunAll(z, n, [Slot(Some(frame), false, None), EMPTY_SLOT], [Transform(ZSTD_ID, [0], [1], Leb(item.width))])
            == Ok([Slot(Some(frame), true, None), Slot(Some(item.data), false, Some(item.width))])
  {
    hide Leb, ParseSingle, DecodeMagicless;
    var frame := z.encode(item.data);
    var slots := [Slot(Some(frame), false, None), EMPTY_SLOT];
    var t := Transform(ZSTD_ID, [0], [1], Leb(item.width));
    SingleInverse(item.width);
    ZstdCodec.DecodeInvertsEncode(z, item.data, item.width);
    OneStep(z, n, slots, t);
    assert Gather(slots, [0]) == [Typed(frame, None)];
    var marked := MarkUsed(slots, [0]);
    assert marked == [Slot(Some(frame), true, None), EMPTY_SLOT];
    assert marked[1 := Slot(Some(item.data), false, Some(item.width))]
        == [Slot(Some(frame), true, None), Slot(Some(item.data), false, Some(item.width))];
  }

  // ----- putting bundles together ----------------------------------------------

  /** A raw route is the same wherever its ids start. */
  lemma RawRouteShifts(z: Codec, item: Item, next: nat)
    ensures var r, r0 := RawRoute(z, item, next), RawRoute(z, item, 0);
            && r.stored == ShiftStored(r0.stored, next) && r.transforms == ShiftAll(r0.transforms, next)
            && r.output == r0.output + next && r.next == r0.next + next
  {
    var r, r0 := RawRoute(z, item, next), RawRoute(z, item, 0);
    assert ShiftStored(r0.stored[..0], next) == [];
    if |item.data| >= MIN_ZSTD_STREAM_SIZE {
      assert ShiftAll(r0.transforms[..0], next) == [];
      assert ShiftIds([0], next) == [next] && ShiftIds([1], next) == [next + 1];
    }
  }

  lemma SplitEmpty(a: nat, b: nat)
    ensures EmptySlots(a + b) == EmptySlots(a) + EmptySlots(b)
  {
  }

  /** Streams loaded into the first part of a larger table, then into the next part. */
  lemma StoreBoth(a: nat, b: nat, sa: seq<StoredStream>, sb: seq<StoredStream>, la: Slots, lb: Slots)
    requires StoreAll(EmptySlots(a), sa) == Ok(la) && StoreAll(EmptySlots(b), sb) == Ok(lb)
    ensures StoreAll(EmptySlots(a + b), sa + ShiftStored(sb, a)) == Ok(la + lb)
  {
    hide StoreAll;
    SplitEmpty(a, b);
    StoreLocal([], EmptySlots(a), EmptySlots(b), sa);
    ShiftByZero([], sa);
    assert [] + EmptySlots(a) + EmptySlots(b) == EmptySlots(a + b);
    assert [] + la + EmptySlots(b) == la + EmptySlots(b);
    StoreLocal(la, EmptySlots(b), [], sb);
    assert la + EmptySlots(b) + [] == la + EmptySlots(b) && la + lb + [] == la + lb;
    StoreAppend(EmptySlots(a + b), sa, ShiftStored(sb, a));
  }

  /** The same for running. */
  lemma RunBoth(z: Codec, n: nat, ta: seq<Transform>, tb: seq<Transform>, la: Slots, lb: Slots, ra: Slots, rb: Slots)
    requires RunAll(z, n, la, ta) == Ok(ra) && RunAll(z, n, lb, tb) == Ok(rb)
    ensures RunAll(z, n, la + lb, ta + ShiftAll(tb, |la|)) == Ok(ra + rb)
  {
    hide RunAll;
    RunLocal(z, n, [], la, lb, ta);
    ShiftByZero(ta, []);
    assert [] + la + lb == la + lb && [] + ra + lb == ra + lb;
    RunLocal(z, n, ra, lb, [], tb);
    assert ra + lb + [] == ra + lb && ra + rb + [] == ra + rb;
    RunAppend(z, n, la + lb, ta, ShiftAll(tb, |la|));
  }

  lemma HoldingBoth(oa: seq<nat>, ob: nat, items: seq<Item>, item: Item, ra: Slots, rb: Slots)
    requires Holding(oa, items, ra) && Holding([ob], [item], rb)
    ensures Holding(oa + [ob + |ra|], items + [item], ra + rb)
  {
    var outputs, after := oa + [ob + |ra|], ra + rb;
    forall i | 0 <= i < |items| + 1 ensures outputs[i] < |after| && Holds(after[outputs[i]], (items + [item])[i]) {
      if i < |items| { assert after[outputs[i]] == ra[oa[i]]; } else { assert Holds(rb[[ob][0]], [item][0]); }
    }
    forall x: nat | x < |after| ensures after[x].content.Some? && (after[x].used || x in outputs) {
      if x < |ra| {
        if x in oa {
          var i :| 0 <= i < |oa| && oa[i] == x;
          assert outputs[i] == x;
        }
      } else {
        assert after[x] == rb[x - |ra|];
        assert outputs[|oa|] == ob + |ra|;
      }
    }
  }

  lemma AddKeeps(z: Codec, n: nat, b: Bundle, items: seq<Item>, item: Item, before: Slots, after: Slots)
    returns (before': Slots, after': Slots)
    requires Contract(z) && ItemOk(item) && Delivers(z, n, b, items, before, after)
    ensures Delivers(z, n, Add(b, RawRoute(z, item, b.next)), items + [item], before', after')
  {
    hide StoreAll, RunAll, RawRoute, Holding, ItemOk;
    var r0 := RawRoute(z, item, 0);
    var rawBefore, rawAfter := RawRouteRuns(z, n, item);
    AddToNothing(r0);
    RawRouteShifts(z, item, b.next);
    StoreBoth(b.next, r0.next, b.stored, r0.stored, before, rawBefore);
    RunBoth(z, n, b.transforms, r0.transforms, before, rawBefore, after, rawAfter);
    HoldingBoth(b.outputs, r0.output, items, item, after, rawAfter);
    before', after' := before + rawBefore, after + rawAfter;
  }

  lemma {:induction false} AddRawKeeps(z: Codec, n: nat, b: Bundle, had: seq<Item>, items: seq<Item>, before: Slots, after: Slots)
    returns (before': Slots, after': Slots)
    requires Contract(z) && Delivers(z, n, b, had, before, after)
    requires forall i | 0 <= i < |items| :: ItemOk(items[i])
    ensures Delivers(z, n, AddRaw(z, b, items), had + items, before', after')
    decreases |items|
  {
    hide Delivers, ItemOk, RawRoute, Add, Contract;
    if items == [] {
      before', after' := before, after;
      assert had + items == had;
    } else {
      var init, last := items[..|items| - 1], items[|items| - 1];
      before', after' := AddRawKeeps(z, n, b, had, init, before, after);
      before', after' := AddKeeps(z, n, AddRaw(z, b, init), had + init, last, before', after');
      AddRawSnoc(z, b, had, items);
    }
  }

  lemma AddRawSnoc(z: Codec, b: Bundle, had: seq<Item>, items: seq<Item>)
    requires items != []
    ensures var init, last := items[..|items| - 1], items[|items| - 1];
            && AddRaw(z, b, items) == Add(AddRaw(z, b, init), RawRoute(z, last, AddRaw(z, b, init).next))
            && had + items == had + init + [last]
  {
    hide RawRoute, Add;
  }

  /** One record that reads all of a bundle's outputs and writes the next slot. */
  lemma CombineStep(z: Codec, n: nat, b: Bundle, items: seq<Item>, after: Slots, t: Transform, out: Output)
    returns (closed: Slots)
    requires Holding(b.outputs, items, after) && |after| == b.next && |items| <= 5
    requires t.inputs == b.outputs && t.outputs == [b.next]
    requires forall ins | Matches(ins, items) :: Execute(z, n, ins, t) == Ok(out)
    ensures |closed| == b.next && forall x | 0 <= x < |closed| :: closed[x].content.Some? && closed[x].used
    ensures Step(z, n, after + [EMPTY_SLOT], t) == Ok(closed + [Slot(Some(out.data), false, Some(out.width))])
  {
    hide Execute, MarkUsed;
    var slots := after + [EMPTY_SLOT];
    Ready(b.outputs, items, after);
    assert OutputsFree(slots, t.outputs);
    assert Matches(Gather(slots, t.inputs), items);
    var marked := MarkUsed(slots, t.inputs);
    closed := marked[..b.next];
    NextUntouched(b.outputs, slots, b.next);
    assert marked[b.next := Slot(Some(out.data), false, Some(out.width))] == closed + [Slot(Some(out.data), false, Some(out.width))];
  }

  lemma Ready(outputs: seq<nat>, items: seq<Item>, after: Slots)
    requires Holding(outputs, items, after)
    ensures InputsReady(after + [EMPTY_SLOT], outputs)
    ensures Matches(Gather(after + [EMPTY_SLOT], outputs), items)
    ensures forall i | 0 <= i < |outputs| :: outputs[i] < |after|
  {
    forall i | 0 <= i < |items| ensures outputs[i] < |after| && Holds(after[outputs[i]], items[i]) {
    }
  }

  lemma NextUntouched(outputs: seq<nat>, slots: Slots, next: nat)
    requires next < |slots| && forall i | 0 <= i < |outputs| :: outputs[i] < next
    ensures MarkUsed(slots, outputs)[next] == slots[next]
  {
  }

  /** A bundle closed by a record that combines its outputs into one item. */
  function Close(b: Bundle, t: Transform): Route {
    Route(b.stored, b.transforms + [t], b.next, b.next + 1)
  }

  lemma CloseRuns(z: Codec, n: nat, b: Bundle, items: seq<Item>, before: Slots, after: Slots, t: Transform, item: Item)
    returns (before': Slots, after': Slots)
    requires Delivers(z, n, b, items, before, after) && |items| <= 5
    requires t.inputs == b.outputs && t.outputs == [b.next]
    requires forall ins | Matches(ins, items) :: Execute(z, n, ins, t) == Ok(Output(item.data, item.width))
    ensures Delivers(z, n, Add(Bundle([], [], [], 0), Close(b, t)), [item], before', after')
  {
    hide StoreAll, RunAll, Holding, Matches, Execute, Step;
    var closed := CombineStep(z, n, b, items, after, t, Output(item.data, item.width));
    before' := before + [EMPTY_SLOT];
    after' := closed + [Slot(Some(item.data), false, Some(item.width))];
    AddToNothing(Close(b, t));
    StoreRoom(b.next, b.stored, before, 1);
    RunRoom(z, n, b.transforms, before, after, t);
    HoldsOne(b.next, item, after');
  }

  lemma StoreRoom(a: nat, ss: seq<StoredStream>, loaded: Slots, room: nat)
    requires StoreAll(EmptySlots(a), ss) == Ok(loaded)
    ensures StoreAll(EmptySlots(a + room), ss) == Ok(loaded + EmptySlots(room))
    ensures EmptySlots(1) == [EMPTY_SLOT]
  {
    hide StoreAll;
    SplitEmpty(a, room);
    StoreLocal([], EmptySlots(a), EmptySlots(room), ss);
    ShiftByZero([], ss);
    assert [] + EmptySlots(a) + EmptySlots(room) == EmptySlots(a + room);
    assert [] + loaded + EmptySlots(room) == loaded + EmptySlots(room);
  }

  lemma RunRoom(z: Codec, n: nat, ts: seq<Transform>, before: Slots, after: Slots, t: Transform)
    requires RunAll(z, n, before, ts) == Ok(after)
    ensures RunAll(z, n, before + [EMPTY_SLOT], ts + [t]) == Step(z, n, after + [EMPTY_SLOT], t)
  {
    hide RunAll, Step;
    RunLocal(z, n, [], before, [EMPTY_SLOT], ts);
    ShiftByZero(ts, []);
    assert [] + before + [EMPTY_SLOT] == before + [EMPTY_SLOT] && [] + after + [EMPTY_SLOT] == after + [EMPTY_SLOT];
    RunAppend(z, n, before + [EMPTY_SLOT], ts, [t]);
    OneStep(z, n, after + [EMPTY_SLOT], t);
  }

  lemma NothingDelivers(z: Codec, n: nat)
    ensures Delivers(z, n, Bundle([], [], [], 0), [], [], [])
  {
  }

  // ----- the literal routes -----------------------------------------------------

  lemma Split4Executes(z: Codec, n: nat, data: bytes, ins: seq<Typed>, outputs: seq<nat>, next: nat)
    requires |data| % 4 == 0 && |data| / 4 <= n && Matches(ins, LaneItems(data))
    ensures Execute(z, n, ins, Transform(TRANSPOSE_SPLIT4_ID, outputs, [next], [])) == Ok(Output(data, 4))
  {
    hide Transpose.Join, Transpose.Split;
    Transpose.JoinSplit(data);
    var l := Transpose.Split(data);
    SplitLengths(data);
    assert ins[0].data == l.lane0 && ins[1].data == l.lane1 && ins[2].data == l.lane2 && ins[3].data == l.lane3;
    assert ins[0].Allows(1) && ins[1].Allows(1) && ins[2].Allows(1) && ins[3].Allows(1);
  }

  lemma SplitLengths(data: bytes)
    ensures Transpose.Split(data).EqualLengths() && |Transpose.Split(data).lane0| == |data| / 4
  {
  }

  lemma Split4Runs(z: Codec, n: nat, data: bytes) returns (before: Slots, after: Slots)
    requires Contract(z) && ItemOk(Item(data, 4)) && |data| / 4 <= n
    ensures Delivers(z, n, Add(Bundle([], [], [], 0), Split4Route(z, data, 0)), [Item(data, 4)], before, after)
  {
    hide Delivers, AddRaw, Execute, Matches, Transpose.Split;
    var items := LaneItems(data);
    SplitLengths(data);
    NothingDelivers(z, n);
    before, after := AddRawKeeps(z, n, Bundle([], [], [], 0), [], items, [], []);
    assert [] + items == items;
    var lanes := AddRaw(z, Bundle([], [], [], 0), items);
    var t := Transform(TRANSPOSE_SPLIT4_ID, lanes.outputs, [lanes.next], []);
    forall ins | Matches(ins, items) ensures Execute(z, n, ins, t) == Ok(Output(data, 4)) {
      Split4Executes(z, n, data, ins, lanes.outputs, lanes.next);
    }
    before, after := CloseRuns(z, n, lanes, items, before, after, t, Item(data, 4));
  }

  /** The dictionary's table alone, stored. */
  function TableBundle(valueBytes: bytes): Bundle {
    Bundle([StoredStream(0, valueBytes)], [], [0], 1)
  }

  lemma TableDelivers(z: Codec, n: nat, valueBytes: bytes)
    ensures Delivers(z, n, TableBundle(valueBytes), [Item(valueBytes, 4)],
                     [Slot(Some(valueBytes), false, None)], [Slot(Some(valueBytes), false, None)])
  {
    hide StoreAll, RunAll;
    var slots := [Slot(Some(valueBytes), false, None)];
    TinyStores(valueBytes);
    NoSteps(z, n, slots);
    HoldsOne(0, Item(valueBytes, 4), slots);
  }

  /** The dictionary route is the table, the codes on a raw route, and the lookup. */
  lemma DictRouteIs(z: Codec, c: LiteralDict.Candidate)
    ensures var b := Add(TableBundle(c.valueBytes), RawRoute(z, Item(c.dictOrd, c.codeWidth), 1));
            DictRoute(z, c, 0) == Close(b, Transform(LITERAL_DICT_ID, b.outputs, [b.next], Leb(c.codeWidth)))
  {
    hide Leb;
    var r := RawRoute(z, Item(c.dictOrd, c.codeWidth), 1);
    assert TableBundle(c.valueBytes).stored + r.stored == [StoredStream(0, c.valueBytes), r.stored[0]];
    assert [] + r.transforms == r.transforms;
    assert [0] + [r.output] == [0, r.output];
  }

  lemma DictExecutes(z: Codec, n: nat, c: LiteralDict.Candidate, data: bytes, ins: seq<Typed>, outputs: seq<nat>, next: nat)
    requires c.codeWidth == 1 || c.codeWidth == 2
    requires LiteralDict.DecodeSpec(c.valueBytes, c.dictOrd, c.codeWidth) == Ok(data)
    requires Matches(ins, [Item(c.valueBytes, 4), Item(c.dictOrd, c.codeWidth)])
    ensures Execute(z, n, ins, Transform(LITERAL_DICT_ID, outputs, [next], Leb(c.codeWidth))) == Ok(Output(data, 4))
  {
    hide LiteralDict.DecodeSpec, Leb, ParseSingle;
    SingleInverse(c.codeWidth);
    var items := [Item(c.valueBytes, 4), Item(c.dictOrd, c.codeWidth)];
    assert ins[0].data == items[0].data && ins[1].data == items[1].data;
    assert ins[0].Allows(items[0].width) && ins[1].Allows(items[1].width);
  }

  lemma DictRuns(z: Codec, n: nat, data: bytes, width: nat) returns (before: Slots, after: Slots)
    requires Contract(z) && ItemOk(Item(data, 4)) && (width == 1 || width == 2)
    requires LiteralDict.Build(data, width).Some?
    ensures Delivers(z, n, Add(Bundle([], [], [], 0), DictRoute(z, LiteralDict.Build(data, width).value, 0)),
                     [Item(data, 4)], before, after)
  {
    hide Delivers, Execute, Matches, LiteralDict.Build, LiteralDict.DecodeSpec, DictRoute, RawRoute;
    var c := LiteralDict.Build(data, width).value;
    LiteralDict.BuiltDecodes(data, width);
    var table, codes := Item(c.valueBytes, 4), Item(c.dictOrd, width);
    TableDelivers(z, n, c.valueBytes);
    var slots := [Slot(Some(c.valueBytes), false, None)];
    assert ItemOk(codes);
    before, after := AddKeeps(z, n, TableBundle(c.valueBytes), [table], codes, slots, slots);
    assert [table] + [codes] == [table, codes];
    var b := Add(TableBundle(c.valueBytes), RawRoute(z, codes, 1));
    var t := Transform(LITERAL_DICT_ID, b.outputs, [b.next], Leb(width));
    forall ins | Matches(ins, [table, codes]) ensures Execute(z, n, ins, t) == Ok(Output(data, 4)) {
      DictExecutes(z, n, c, data, ins, b.outputs, b.next);
    }
    before, after := CloseRuns(z, n, b, [table, codes], before, after, t, Item(data, 4));
    DictRouteIs(z, c);
  }

  /** Whatever the policy picks, the literal stream is delivered. */
  lemma LiteralRuns(z: Codec, policy: Policy, n: nat, data: bytes) returns (before: Slots, after: Slots)
    requires Contract(z) && ItemOk(Item(data, 4)) && |data| / 4 <= n
    ensures Delivers(z, n, Add(Bundle([], [], [], 0), LiteralRoute(z, policy, data, 0)), [Item(data, 4)], before, after)
  {
    hide Delivers, LiteralDict.Build, DictRoute, Split4Route, RawRoute, ItemOk;
    if LiteralDict.Build(data, 1).Some? && policy.dictU8(data) {
      before, after := DictRuns(z, n, data, 1);
    } else if LiteralDict.Build(data, 2).Some? && policy.dictU16(data) {
      before, after := DictRuns(z, n, data, 2);
    } else if Splittable(data) && policy.split4(data) {
      before, after := Split4Runs(z, n, data);
    } else {
      before, after := RawRouteRuns(z, n, Item(data, 4));
    }
  }

  // ----- the whole graph --------------------------------------------------------

  /** Side streams of a chunk of `n` values: whole elements, none longer than the chunk's bytes. */
  predicate StreamsOk(s: SideStreams, n: nat) {
    && ItemOk(Item(s.literals, 4)) && |s.literals| / 4 <= n
    && ItemOk(Item(s.tokens, 2)) && ItemOk(Item(s.offsets, 4))
    && ItemOk(Item(s.extraLiteralLengths, 4)) && ItemOk(Item(s.extraMatchLengths, 4))
  }

  function FieldLzItems(s: SideStreams): seq<Item> {
    [Item(s.literals, 4)] + SideItems(s)
  }

  /** The records before FieldLZ put exactly the five side streams into its input slots. */
  lemma InputsDeliver(z: Codec, policy: Policy, n: nat, s: SideStreams) returns (before: Slots, after: Slots)
    requires Contract(z) && StreamsOk(s, n)
    ensures Delivers(z, n, Inputs(z, policy, s), FieldLzItems(s), before, after)
  {
    hide Delivers, LiteralRoute, AddRaw, ItemOk;
    before, after := LiteralRuns(z, policy, n, s.literals);
    before, after := AddRawKeeps(z, n, Add(Bundle([], [], [], 0), LiteralRoute(z, policy, s.literals, 0)),
                                 [Item(s.literals, 4)], SideItems(s), before, after);
  }

  lemma FieldLzExecutes(z: Codec, n: nat, s: SideStreams, data: bytes, ins: seq<Typed>, outputs: seq<nat>, next: nat)
    requires n < U64_LIMIT && DecodeSpec(s, n) == Ok(data) && Matches(ins, FieldLzItems(s))
    ensures Execute(z, n, ins, Transform(FIELD_LZ_ID, outputs, [next], Leb(n))) == Ok(Output(data, 4))
  {
    hide DecodeSpec, Leb, ParseSingle;
    SingleInverse(n);
    var items := FieldLzItems(s);
    forall i | 0 <= i < 5 ensures ins[i].data == items[i].data && ins[i].Allows(items[i].width) {
    }
    assert items[0] == Item(s.literals, 4) && items[1] == Item(s.tokens, 2) && items[2] == Item(s.offsets, 4);
    assert items[3] == Item(s.extraLiteralLengths, 4) && items[4] == Item(s.extraMatchLengths, 4);
    assert FieldLzWidths(ins) && FieldLzInput(ins) == s;
  }

  /** Loading and running a planned graph, raw path: the last slot holds FieldLZ's output. */
  lemma RawGraphRuns(z: Codec, policy: Policy, n: nat, s: SideStreams, data: bytes)
    returns (before: Slots, closed: Slots)
    requires Contract(z) && StreamsOk(s, n) && n < U64_LIMIT && DecodeSpec(s, n) == Ok(data)
    ensures var b := Inputs(z, policy, s);
            var t := Transform(FIELD_LZ_ID, b.outputs, [b.next], Leb(n));
            && |closed| == b.next && (forall x | 0 <= x < |closed| :: closed[x].content.Some? && closed[x].used)
            && |before| == b.next && StoreAll(EmptySlots(b.next), b.stored) == Ok(before)
            && RunAll(z, n, before + [EMPTY_SLOT], b.transforms + [t]) == Ok(closed + [Slot(Some(data), false, Some(4))])
  {
    hide StoreAll, RunAll, Inputs, Holding, Matches, Execute, Step, StreamsOk, DecodeSpec;
    var b, items := Inputs(z, policy, s), FieldLzItems(s);
    var after;
    before, after := InputsDeliver(z, policy, n, s);
    var t := Transform(FIELD_LZ_ID, b.outputs, [b.next], Leb(n));
    forall ins | Matches(ins, items) ensures Execute(z, n, ins, t) == Ok(Output(data, 4)) {
      FieldLzExecutes(z, n, s, data, ins, b.outputs, b.next);
    }
    RunsKeepSize(z, n, before, b.transforms);
    closed := CombineStep(z, n, b, items, after, t, Output(data, 4));
    RunRoom(z, n, b.transforms, before, after, t);
  }

  lemma RunsKeepSize(z: Codec, n: nat, slots: Slots, ts: seq<Transform>)
    ensures RunAll(z, n, slots, ts).Ok? ==> |RunAll(z, n, slots, ts).value| == |slots|
  {
  }

  // ----- planned graphs can be printed and checked -------------------------------

  lemma SmallRecordFits(t: Transform, width: nat)
    requires t.privateHeader == Leb(width) || t.privateHeader == []
    requires width < U64_LIMIT && t.transformId < 2000 && |t.inputs| <= 5 && |t.outputs| == 1
    requires (forall i | 0 <= i < |t.inputs| :: t.inputs[i] <= 1000) && t.outputs[0] <= 1000
    ensures TransformFits(t)
  {
    hide Leb;
    U64TakesAtMostTenBytes(width);
  }

  lemma TidyAdd(z: Codec, b: Bundle, item: Item)
    requires Contract(z) && ItemOk(item) && Tidy(b) && b.next <= 90 && |b.outputs| < 5
    ensures Tidy(Add(b, RawRoute(z, item, b.next))) && Add(b, RawRoute(z, item, b.next)).next <= b.next + 2
  {
    hide Leb, TransformFits;
    var r := RawRoute(z, item, b.next);
    if |item.data| >= MIN_ZSTD_STREAM_SIZE {
      assert 0 < |z.encode(item.data)| < U64_LIMIT;
      SmallRecordFits(r.transforms[0], item.width);
    }
  }

  lemma {:induction false} TidyAddRaw(z: Codec, b: Bundle, items: seq<Item>)
    requires Contract(z) && (forall i | 0 <= i < |items| :: ItemOk(items[i]))
    requires Tidy(b) && b.next + 2 * |items| <= 50 && |b.outputs| + |items| <= 5
    ensures Tidy(AddRaw(z, b, items)) && AddRaw(z, b, items).next <= b.next + 2 * |items|
    ensures |AddRaw(z, b, items).outputs| == |b.outputs| + |items|
    decreases |items|
  {
    if items != [] {
      hide ItemOk, RawRoute, Tidy;
      TidyAddRaw(z, b, items[..|items| - 1]);
      TidyAdd(z, AddRaw(z, b, items[..|items| - 1]), items[|items| - 1]);
    }
  }

  lemma TidyClose(b: Bundle, t: Transform, width: nat)
    requires Tidy(b) && b.next <= 50
    requires t.inputs == b.outputs && t.outputs == [b.next] && t.transformId < 2000 && t.transformId != FIELD_LZ_ID
    requires (t.privateHeader == Leb(width) || t.privateHeader == []) && width < U64_LIMIT
    ensures Tidy(Add(Bundle([], [], [], 0), Close(b, t)))
  {
    hide Leb, TransformFits;
    SmallRecordFits(t, width);
    AddToNothing(Close(b, t));
  }

  lemma TidyTable(valueBytes: bytes)
    requires |valueBytes| < U64_LIMIT
    ensures Tidy(TableBundle(valueBytes))
  {
  }

  lemma TidyDict(z: Codec, data: bytes, width: nat)
    requires Contract(z) && ItemOk(Item(data, 4)) && (width == 1 || width == 2)
    requires LiteralDict.Build(data, width).Some?
    ensures var b := Add(Bundle([], [], [], 0), DictRoute(z, LiteralDict.Build(data, width).value, 0)); Tidy(b) && b.next <= 4
  {
    hide Tidy, LiteralDict.Build, LiteralDict.DecodeSpec, DictRoute, RawRoute, Leb;
    var c := LiteralDict.Build(data, width).value;
    LiteralDict.BuiltDecodes(data, width);
    var codes := Item(c.dictOrd, width);
    assert ItemOk(codes);
    TidyTable(c.valueBytes);
    TidyAdd(z, TableBundle(c.valueBytes), codes);
    var b := Add(TableBundle(c.valueBytes), RawRoute(z, codes, 1));
    TidyClose(b, Transform(LITERAL_DICT_ID, b.outputs, [b.next], Leb(width)), width);
    DictRouteIs(z, c);
  }

  lemma TidySplit4(z: Codec, data: bytes)
    requires Contract(z) && ItemOk(Item(data, 4))
    ensures var b := Add(Bundle([], [], [], 0), Split4Route(z, data, 0)); Tidy(b) && b.next <= 9
  {
    hide Tidy, AddRaw, Transpose.Split, Leb;
    SplitLengths(data);
    EmptyIsTidy();
    TidyAddRaw(z, Bundle([], [], [], 0), LaneItems(data));
    var lanes := AddRaw(z, Bundle([], [], [], 0), LaneItems(data));
    TidyClose(lanes, Transform(TRANSPOSE_SPLIT4_ID, lanes.outputs, [lanes.next], []), 0);
  }

  lemma EmptyIsTidy()
    ensures Tidy(Bundle([], [], [], 0))
  {
  }

  lemma TidyLiteral(z: Codec, policy: Policy, data: bytes)
    requires Contract(z) && ItemOk(Item(data, 4))
    ensures var b := Add(Bundle([], [], [], 0), LiteralRoute(z, policy, data, 0)); Tidy(b) && b.next <= 9 && |b.outputs| == 1
  {
    hide Tidy, LiteralDict.Build, DictRoute, Split4Route, RawRoute, ItemOk;
    EmptyIsTidy();
    if LiteralDict.Build(data, 1).Some? && policy.dictU8(data) {
      TidyDict(z, data, 1);
    } else if LiteralDict.Build(data, 2).Some? && policy.dictU16(data) {
      TidyDict(z, data, 2);
    } else if Splittable(data) && policy.split4(data) {
      TidySplit4(z, data);
    } else {
      TidyAdd(z, Bundle([], [], [], 0), Item(data, 4));
    }
  }

  lemma InputsTidy(z: Codec, policy: Policy, n: nat, s: SideStreams)
    requires Contract(z) && StreamsOk(s, n)
    ensures Tidy(Inputs(z, policy, s)) && Inputs(z, policy, s).next <= 17
  {
    hide Tidy, LiteralRoute, AddRaw, ItemOk;
    TidyLiteral(z, policy, s.literals);
    TidyAddRaw(z, Add(Bundle([], [], [], 0), LiteralRoute(z, policy, s.literals, 0)), SideItems(s));
  }

  lemma PlanFits(z: Codec, policy: Policy, n: nat, s: SideStreams, delta: bool)
    requires Contract(z) && StreamsOk(s, n) && 1 <= n <= MAX_CHUNK_ELEMENTS
    ensures var p := Plan(z, policy, s, n, delta);
            Fits(p) && HeaderOk(p.numElements, p.slotCount, |p.stored|, |p.transforms|, p.finalId)
  {
    hide Inputs, Leb, StoredFits, TransformFits, ItemOk;
    InputsTidy(z, policy, n, s);
    var b := Inputs(z, policy, s);
    SmallRecordFits(Transform(FIELD_LZ_ID, b.outputs, [b.next], Leb(n)), n);
    SmallRecordFits(Transform(DELTA_INT_ID, [b.next], [b.next + 1], []), 0);
  }

  lemma LogSnoc(ts: seq<Transform>, t: Transform)
    ensures Log(ts + [t]) == Log(ts) + [EntryOf(t)]
  {
    assert (ts + [t])[..|ts|] == ts;
  }

  lemma {:induction false} QuietLog(ts: seq<Transform>, next: nat, x: nat)
    requires (forall k | 0 <= k < |ts| :: Modest(ts[k], next)) && next <= x
    ensures FieldLzOutputs(Log(ts)) == [] && Producer(Log(ts), x) == None
  {
    if ts != [] {
      QuietLog(ts[..|ts| - 1], next, x);
      assert Log(ts)[..|ts| - 1] == Log(ts[..|ts| - 1]);
      assert Modest(ts[|ts| - 1], next);
    }
  }

  lemma FieldLzSnoc(log: seq<LogEntry>, e: LogEntry, x: nat)
    ensures FieldLzOutputs(log + [e]) == FieldLzOutputs(log) + (if e.id == FIELD_LZ_ID then [e.output] else [])
    ensures Producer(log + [e], x) ==
            if Producer(log, x).Some? then Producer(log, x) else if e.output == x then Some(e) else None
  {
    assert (log + [e])[..|log|] == log;
  }

  lemma RawFinalValid(ts: seq<Transform>, next: nat, t: Transform)
    requires (forall k | 0 <= k < |ts| :: Modest(ts[k], next)) && t.transformId == FIELD_LZ_ID && t.outputs == [next]
    ensures ValidFinal(Log(ts + [t]), next)
  {
    hide Modest, Log, FieldLzOutputs, Producer;
    QuietLog(ts, next, next);
    LogSnoc(ts, t);
    FieldLzSnoc(Log(ts), EntryOf(t), next);
  }

  lemma DeltaFinalValid(ts: seq<Transform>, next: nat, t: Transform, d: Transform)
    requires (forall k | 0 <= k < |ts| :: Modest(ts[k], next)) && t.transformId == FIELD_LZ_ID && t.outputs == [next]
    requires d == Transform(DELTA_INT_ID, [next], [next + 1], [])
    ensures ValidFinal(Log(ts + [t] + [d]), next + 1)
  {
    hide Modest, Log, FieldLzOutputs, Producer;
    QuietLog(ts, next, next + 1);
    LogSnoc(ts, t);
    LogSnoc(ts + [t], d);
    FieldLzSnoc(Log(ts), EntryOf(t), next + 1);
    FieldLzSnoc(Log(ts) + [EntryOf(t)], EntryOf(d), next + 1);
  }

  lemma DeltaStep(z: Codec, n: nat, closed: Slots, deltas: seq<u32>)
    ensures var data := PackU32s(deltas);
            var next := |closed|;
            Step(z, n, closed + [Slot(Some(data), false, Some(4)), EMPTY_SLOT], Transform(DELTA_INT_ID, [next], [next + 1], []))
            == Ok(closed + [Slot(Some(data), true, Some(4)), Slot(Some(PackU32s(Delta.Accumulate(deltas))), false, Some(4))])
  {
    hide PackU32s, UnpackU32s, Delta.Accumulate;
    var data, next := PackU32s(deltas), |closed|;
    UnpackPack32(deltas);
    var slots := closed + [Slot(Some(data), false, Some(4)), EMPTY_SLOT];
    assert Gather(slots, [next]) == [Typed(data, Some(4))];
    var marked := MarkUsed(slots, [next]);
    assert marked == closed + [Slot(Some(data), true, Some(4)), EMPTY_SLOT];
    var last := Slot(Some(PackU32s(Delta.Accumulate(deltas))), false, Some(4));
    assert marked[next + 1 := last] == closed + [Slot(Some(data), true, Some(4)), last];
  }

  lemma ConcludeRaw(closed: Slots, log: seq<LogEntry>, n: nat, values: seq<u32>)
    requires forall x | 0 <= x < |closed| :: closed[x].content.Some? && closed[x].used
    requires ValidFinal(log, |closed|) && |values| == n
    ensures Conclude(closed + [Slot(Some(PackU32s(values)), false, Some(4))], log, n, |closed|) == Ok(values)
  {
    hide ValidFinal, PackU32s, UnpackU32s;
    UnpackPack32(values);
    var slots := closed + [Slot(Some(PackU32s(values)), false, Some(4))];
    assert AllConsumed(slots, |closed|);
  }

  /** Planner soundness, raw path: the planned graph is accepted and yields what the side
      streams decode to, under every policy. */
  lemma RawPlanRuns(z: Codec, policy: Policy, n: nat, s: SideStreams, values: seq<u32>)
    requires Contract(z) && StreamsOk(s, n) && 1 <= n <= MAX_CHUNK_ELEMENTS
    requires |values| == n && DecodeSpec(s, n) == Ok(PackU32s(values))
    ensures RunProgram(z, Plan(z, policy, s, n, false)) == Ok(values)
  {
    hide Inputs, StoreAll, RunAll, DecodeSpec, PackU32s, Conclude, Leb, ValidFinal, Fits, StreamsOk;
    var b := Inputs(z, policy, s);
    var t := Transform(FIELD_LZ_ID, b.outputs, [b.next], Leb(n));
    PlanFits(z, policy, n, s, false);
    InputsTidy(z, policy, n, s);
    var before, closed := RawGraphRuns(z, policy, n, s, PackU32s(values));
    StoreRoom(b.next, b.stored, before, 1);
    RawFinalValid(b.transforms, b.next, t);
    ConcludeRaw(closed, Log(b.transforms + [t]), n, values);
  }

  lemma DeltaGraphRuns(z: Codec, policy: Policy, n: nat, s: SideStreams, deltas: seq<u32>)
    returns (before: Slots, closed: Slots)
    requires Contract(z) && StreamsOk(s, n) && n < U64_LIMIT && DecodeSpec(s, n) == Ok(PackU32s(deltas))
    ensures var p := Plan(z, policy, s, n, true);
            && |closed| == p.finalId && (forall x | 0 <= x < |closed| :: closed[x].content.Some? && closed[x].used)
            && |before| + 2 == p.slotCount && StoreAll(EmptySlots(p.slotCount), p.stored) == Ok(before + EmptySlots(2))
            && RunAll(z, n, before + EmptySlots(2), p.transforms)
               == Ok(closed + [Slot(Some(PackU32s(Delta.Accumulate(deltas))), false, Some(4))])
  {
    hide Inputs, StoreAll, RunAll, DecodeSpec, PackU32s, Leb, StreamsOk, Step, Delta.Accumulate;
    var b := Inputs(z, policy, s);
    var t := Transform(FIELD_LZ_ID, b.outputs, [b.next], Leb(n));
    var d := Transform(DELTA_INT_ID, [b.next], [b.next + 1], []);
    var rest;
    before, rest := RawGraphRuns(z, policy, n, s, PackU32s(deltas));
    StoreRoom(b.next, b.stored, before, 2);
    var done := rest + [Slot(Some(PackU32s(deltas)), false, Some(4))];
    RunRoom(z, n, b.transforms + [t], before + [EMPTY_SLOT], done, d);
    DeltaStep(z, n, rest, deltas);
    assert before + [EMPTY_SLOT] + [EMPTY_SLOT] == before + EmptySlots(2);
    assert done + [EMPTY_SLOT] == rest + [Slot(Some(PackU32s(deltas)), false, Some(4)), EMPTY_SLOT];
    closed := rest + [Slot(Some(PackU32s(deltas)), true, Some(4))];
    var last := Slot(Some(PackU32s(Delta.Accumulate(deltas))), false, Some(4));
    assert closed + [last] == rest + [Slot(Some(PackU32s(deltas)), true, Some(4)), last];
  }

  /** Planner soundness, delta path: the final stream is the running sum of what FieldLZ decodes. */
  lemma DeltaPlanRuns(z: Codec, policy: Policy, n: nat, s: SideStreams, deltas: seq<u32>)
    requires Contract(z) && StreamsOk(s, n) && 1 <= n <= MAX_CHUNK_ELEMENTS
    requires |deltas| == n && DecodeSpec(s, n) == Ok(PackU32s(deltas))
    ensures RunProgram(z, Plan(z, policy, s, n, true)) == Ok(Delta.Accumulate(deltas))
  {
    hide Inputs, StoreAll, RunAll, DecodeSpec, PackU32s, Conclude, Leb, ValidFinal, Fits, StreamsOk, Delta.Accumulate;
    var b := Inputs(z, policy, s);
    PlanFits(z, policy, n, s, true);
    InputsTidy(z, policy, n, s);
    var before, closed := DeltaGraphRuns(z, policy, n, s, deltas);
    DeltaFinalValid(b.transforms, b.next, Transform(FIELD_LZ_ID, b.outputs, [b.next], Leb(n)),
                    Transform(DELTA_INT_ID, [b.next], [b.next + 1], []));
    ConcludeRaw(closed, Log(Plan(z, policy, s, n, true).transforms), n, Delta.Accumulate(deltas));
  }
}
