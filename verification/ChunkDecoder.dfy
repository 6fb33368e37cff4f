/** The chunk reader of src/frame.rs:251-455, which executes records as it reads them
    over a mutable slot table. It accepts what reading first and running afterwards
    accepts, with the same values. */
module ChunkDecoder {
  import opened Basics
  import opened Varint
  import opened ChunkFormat
  import opened ChunkMachine
  import opened ZstdCodec
  import Delta
  import FieldLzDecoder
  import LiteralDict
  import Transpose

  // ----- the transforms -------------------------------------------------------

  method ExecuteTransform(z: Codec, n: nat, ins: seq<Typed>, t: Transform) returns (r: Result<Output>)
    ensures r == Execute(z, n, ins, t)
  {
    if |t.outputs| != 1 { return Err; }
    if t.transformId == ZSTD_ID {
      r := ExecuteZstd(z, ins, t.privateHeader);
    } else if t.transformId == FIELD_LZ_ID {
      r := RunFieldLz(n, ins, t.privateHeader);
    } else if t.transformId == TRANSPOSE_SPLIT4_ID {
      r := RunSplit4(n, ins, t.privateHeader);
    } else if t.transformId == DELTA_INT_ID {
      r := RunDelta(ins, t.privateHeader);
    } else if t.transformId == LITERAL_DICT_ID {
      r := RunDict(ins, t.privateHeader);
    } else {
      return Err;
    }
  }

  method RunFieldLz(n: nat, ins: seq<Typed>, header: bytes) returns (r: Result<Output>)
    ensures r == ExecuteFieldLz(n, ins, header)
  {
    hide FieldLzDecoder.DecodeSpec, ParseSingle;
    if |ins| != FIELD_LZ_INPUT_COUNT { return Err; }
    var declared := ReadSingle(header);
    if declared.Err? { return Err; }
    if declared.value != n { return Err; }
    if !FieldLzWidths(ins) { return Err; }
    var data := FieldLzDecoder.DecodeSideStreams(FieldLzInput(ins), n);
    if data.Err? { return Err; }
    return Ok(Output(data.value, 4));
  }

  method RunSplit4(n: nat, ins: seq<Typed>, header: bytes) returns (r: Result<Output>)
    ensures r == ExecuteSplit4(n, ins, header)
  {
    hide Transpose.DecodeSpec;
    if header != [] { return Err; }
    if |ins| != U32_WIDTH { return Err; }
    for i := 0 to 4
      invariant forall j | 0 <= j < i :: ins[j].Allows(1)
    {
      if !ins[i].Allows(1) { return Err; }
    }
    var data := Transpose.DecodeSplit4(Transpose.Lanes(ins[0].data, ins[1].data, ins[2].data, ins[3].data), n);
    if data.Err? { return Err; }
    return Ok(Output(data.value, 4));
  }

  method RunDelta(ins: seq<Typed>, header: bytes) returns (r: Result<Output>)
    ensures r == ExecuteDelta(ins, header)
  {
    hide Delta.DecodeSpec;
    if |ins| != 1 || header != [] { return Err; }
    if !ins[0].Allows(4) { return Err; }
    var data := Delta.DecodeU32DeltaBytes(ins[0].data);
    if data.Err? { return Err; }
    return Ok(Output(data.value, 4));
  }

  method RunDict(ins: seq<Typed>, header: bytes) returns (r: Result<Output>)
    ensures r == ExecuteDict(ins, header)
  {
    hide LiteralDict.DecodeSpec, ParseSingle;
    if |ins| != 2 { return Err; }
    var width := ReadSingle(header);
    if width.Err? { return Err; }
    if width.value != 1 && width.value != 2 { return Err; }
    if !ins[0].Allows(4) { return Err; }
    if !ins[1].Allows(width.value) { return Err; }
    var data := LiteralDict.Decode(ins[0].data, ins[1].data, width.value);
    if data.Err? { return Err; }
    return Ok(Output(data.value, 4));
  }

  // ----- reading one record ---------------------------------------------------

  lemma ManyFails<T>(parse: Parser<T>, s: bytes, j: nat, k: nat)
    requires j <= k && Many(parse, s, j).Err?
    ensures Many(parse, s, k).Err?
  {
    if Many(parse, s, k).Ok? { ManyPrefix(parse, s, j, k); }
  }

  /** Some id of a list that parses fails a check made as it is read. */
  lemma BadId(s: bytes, ids: seq<nat>, k: nat, bad: nat)
    requires |ids| < k
    requires Many(ParseVarint, s, |ids| + 1).Ok? && Many(ParseVarint, s, |ids| + 1).value.0 == ids + [bad]
    ensures Many(ParseVarint, s, k).Ok? ==> Many(ParseVarint, s, k).value.0[|ids|] == bad
  {
    if Many(ParseVarint, s, k).Ok? {
      ManyPrefix(ParseVarint, s, |ids| + 1, k);
      var all := Many(ParseVarint, s, k).value.0;
      assert all[..|ids| + 1][|ids|] == bad;
    }
  }

  /** The input ids of a record, each checked as it is read: src/frame.rs:372-386. */
  method ReadInputs(reader: Reader, slots: Slots) returns (r: Result<seq<nat>>)
    requires reader.Valid()
    modifies reader
    ensures reader.Valid()
    ensures match ParseIds(old(reader.Rest()))
            case Err => r.Err?
            case Ok((ids, rest)) =>
              if |ids| <= TRANSFORM_INPUT_LIMIT && InputsReady(slots, ids) then r == Ok(ids) && reader.Rest() == rest else r.Err?
  {
    hide ParseVarint;
    var count := reader.ReadU64();
    if count.Err? { return Err; }
    if count.value > TRANSFORM_INPUT_LIMIT { return Err; }
    ghost var start := reader.Rest();
    var ids: seq<nat> := [];
    for k := 0 to count.value
      invariant reader.Valid() && |ids| == k
      invariant Many(ParseVarint, start, k) == Ok((ids, reader.Rest()))
      invariant InputsReady(slots, ids)
    {
      if Many(ParseVarint, start, k + 1).Err? { ManyFails(ParseVarint, start, k + 1, count.value); }
      var id := reader.ReadU64();
      if id.Err? { return Err; }
      BadId(start, ids, count.value, id.value);
      if id.value >= |slots| { return Err; }
      if slots[id.value].content.None? { return Err; }
      ids := ids + [id.value];
    }
    return Ok(ids);
  }

  /** The output ids: src/frame.rs:388-405. */
  method ReadOutputs(reader: Reader, slots: Slots) returns (r: Result<seq<nat>>)
    requires reader.Valid()
    modifies reader
    ensures reader.Valid()
    ensures match ParseIds(old(reader.Rest()))
            case Err => r.Err?
            case Ok((ids, rest)) =>
              if |ids| <= TRANSFORM_OUT_LIMIT && OutputsFree(slots, ids) then r == Ok(ids) && reader.Rest() == rest else r.Err?
  {
    hide ParseVarint;
    var count := reader.ReadU64();
    if count.Err? { return Err; }
    if count.value > TRANSFORM_OUT_LIMIT { return Err; }
    ghost var start := reader.Rest();
    var ids: seq<nat> := [];
    var seen: set<nat> := {};
    for k := 0 to count.value
      invariant reader.Valid() && |ids| == k
      invariant Many(ParseVarint, start, k) == Ok((ids, reader.Rest()))
      invariant OutputsFree(slots, ids)
      invariant forall x :: x in seen <==> x in ids
    {
      if Many(ParseVarint, start, k + 1).Err? { ManyFails(ParseVarint, start, k + 1, count.value); }
      var id := reader.ReadU64();
      if id.Err? { return Err; }
      BadId(start, ids, count.value, id.value);
      if id.value >= |slots| { return Err; }
      if slots[id.value].content.Some? || id.value in seen {
        if id.value in seen && Many(ParseVarint, start, count.value).Ok? {
          Repeated(start, ids, count.value, id.value);
        }
        return Err;
      }
      ids := ids + [id.value];
      seen := seen + {id.value};
    }
    return Ok(ids);
  }

  lemma Repeated(s: bytes, ids: seq<nat>, k: nat, bad: nat)
    requires |ids| < k && bad in ids && Many(ParseVarint, s, k).Ok?
    requires Many(ParseVarint, s, |ids| + 1).Ok? && Many(ParseVarint, s, |ids| + 1).value.0 == ids + [bad]
    ensures var all := Many(ParseVarint, s, k).value.0; exists i, j | 0 <= i < j < |all| :: all[i] == all[j]
  {
    ManyPrefix(ParseVarint, s, |ids| + 1, k);
    var all := Many(ParseVarint, s, k).value.0;
    var i :| 0 <= i < |ids| && ids[i] == bad;
    assert all[..|ids| + 1] == ids + [bad];
    assert all[i] == all[..|ids| + 1][i] && all[|ids|] == all[..|ids| + 1][|ids|];
  }

  /** A length and that many bytes. */
  method ReadBlock(reader: Reader) returns (r: Result<bytes>)
    requires reader.Valid()
    modifies reader
    ensures reader.Valid()
    ensures match ParseBlock(old(reader.Rest()))
            case Err => r.Err?
            case Ok((b, rest)) => r == Ok(b) && reader.Rest() == rest
  {
    hide ParseVarint;
    var len := reader.ReadU64();
    if len.Err? { return Err; }
    ghost var start := reader.Rest();
    r := reader.ReadExact(len.value);
    if r.Ok? {
      assert start == r.value + reader.Rest();
      assert start[len.value..] == reader.Rest();
    }
  }

  /** Read one record, run it, log it: src/frame.rs:365-455. */
  method ReadAndExecute(z: Codec, reader: Reader, n: nat, slots: array<Slot>, log: seq<LogEntry>) returns (r: Result<seq<LogEntry>>)
    requires reader.Valid()
    modifies reader, slots
    ensures reader.Valid()
    ensures match ParseTransform(old(reader.Rest()))
            case Err => r.Err?
            case Ok((t, rest)) =>
              match Step(z, n, old(slots[..]), t)
              case Err => r.Err?
              case Ok(next) => r == Ok(log + [EntryOf(t)]) && slots[..] == next && reader.Rest() == rest
  {
    hide ParseVarint, ParseIds, ParseBlock, Execute;
    ghost var before := slots[..];
    var id := reader.ReadU64();
    if id.Err? { return Err; }
    var inputs := ReadInputs(reader, slots[..]);
    if inputs.Err? { return Err; }
    var outputs := ReadOutputs(reader, slots[..]);
    if outputs.Err? { return Err; }
    var header := ReadBlock(reader);
    if header.Err? { return Err; }
    var t := Transform(id.value, inputs.value, outputs.value, header.value);

    MarkInputs(slots, t.inputs);
    GatherMarked(before, t.inputs);
    var out := ExecuteTransform(z, n, Gather(slots[..], t.inputs), t);
    if out.Err? { return Err; }
    var target := t.outputs[0];
    slots[target] := slots[target].(content := Some(out.value.data), width := Some(out.value.width));
    return Ok(log + [EntryOf(t)]);
  }

  lemma GatherMarked(slots: Slots, ids: seq<nat>)
    requires InputsReady(slots, ids)
    ensures InputsReady(MarkUsed(slots, ids), ids)
    ensures Gather(MarkUsed(slots, ids), ids) == Gather(slots, ids)
  {
  }

  method MarkInputs(slots: array<Slot>, ids: seq<nat>)
    requires InputsReady(slots[..], ids)
    modifies slots
    ensures slots[..] == MarkUsed(old(slots[..]), ids)
  {
    ghost var before := slots[..];
    for i := 0 to |ids|
      invariant slots[..] == MarkUsed(before, ids[..i])
    {
      assert ids[..i + 1][..i] == ids[..i];
      slots[ids[i]] := slots[ids[i]].(used := true);
    }
    assert ids[..|ids|] == ids;
  }

  // ----- reading a whole chunk ------------------------------------------------

  method ReadHeader(reader: Reader) returns (r: Result<Header>)
    requires reader.Valid()
    modifies reader
    ensures reader.Valid()
    ensures match ParseHeader(old(reader.Rest()))
            case Err => r.Err?
            case Ok((h, rest)) => r == Ok(h) && reader.Rest() == rest
  {
    hide ParseVarint;
    var n := reader.ReadU64();
    if n.Err? { return Err; }
    var slotCount := reader.ReadU64();
    if slotCount.Err? { return Err; }
    var storedCount := reader.ReadU64();
    if storedCount.Err? { return Err; }
    var transformCount := reader.ReadU64();
    if transformCount.Err? { return Err; }
    var finalId := reader.ReadU64();
    if finalId.Err? { return Err; }
    return Ok(Header(n.value, slotCount.value, storedCount.value, transformCount.value, finalId.value));
  }

  method ReadStored(reader: Reader, slots: array<Slot>) returns (r: Result<()>)
    requires reader.Valid()
    modifies reader, slots
    ensures reader.Valid()
    ensures match ParseStored(old(reader.Rest()))
            case Err => r.Err?
            case Ok((s, rest)) =>
              match StoreOne(old(slots[..]), s)
              case Err => r.Err?
              case Ok(next) => r.Ok? && slots[..] == next && reader.Rest() == rest
  {
    hide ParseVarint, ParseBlock;
    var id := reader.ReadU64();
    if id.Err? { return Err; }
    if id.value >= slots.Length { return Err; }
    if slots[id.value].content.Some? { return Err; }
    var payload := ReadBlock(reader);
    if payload.Err? { return Err; }
    slots[id.value] := slots[id.value].(content := Some(payload.value));
    return Ok(());
  }

  method ReadAllStored(reader: Reader, slots: array<Slot>, count: nat) returns (r: Result<()>)
    requires reader.Valid()
    modifies reader, slots
    ensures reader.Valid()
    ensures match Many(ParseStored, old(reader.Rest()), count)
            case Err => r.Err?
            case Ok((ss, rest)) =>
              match StoreAll(old(slots[..]), ss)
              case Err => r.Err?
              case Ok(next) => r.Ok? && slots[..] == next && reader.Rest() == rest
  {
    hide ParseStored, StoreOne;
    ghost var start, loaded := reader.Rest(), slots[..];
    ghost var done: seq<StoredStream> := [];
    for k := 0 to count
      invariant reader.Valid() && |done| == k
      invariant Many(ParseStored, start, k) == Ok((done, reader.Rest()))
      invariant StoreAll(loaded, done) == Ok(slots[..])
    {
      ghost var rest, table := reader.Rest(), slots[..];
      var one := ReadStored(reader, slots);
      if one.Err? {
        StoredStops(start, rest, loaded, table, done, count);
        return Err;
      }
      var s := ParseStored(rest).value.0;
      assert (done + [s])[..k] == done;
      done := done + [s];
    }
    return Ok(());
  }

  lemma StoredStops(start: bytes, rest: bytes, loaded: Slots, table: Slots, done: seq<StoredStream>, count: nat)
    requires |done| < count && Many(ParseStored, start, |done|) == Ok((done, rest)) && StoreAll(loaded, done) == Ok(table)
    requires ParseStored(rest).Err? || StoreOne(table, ParseStored(rest).value.0).Err?
    ensures Many(ParseStored, start, count).Err? || StoreAll(loaded, Many(ParseStored, start, count).value.0).Err?
  {
    hide ParseStored, StoreOne;
    var k := |done| + 1;
    if Many(ParseStored, start, count).Ok? {
      var all := Many(ParseStored, start, count).value.0;
      ManyPrefix(ParseStored, start, k, count);
      if StoreAll(loaded, all).Ok? {
        StorePrefix(loaded, all, k);
      }
    }
  }

  method RunAllRecords(z: Codec, reader: Reader, n: nat, slots: array<Slot>, count: nat) returns (r: Result<seq<LogEntry>>)
    requires reader.Valid()
    modifies reader, slots
    ensures reader.Valid()
    ensures match Many(ParseTransform, old(reader.Rest()), count)
            case Err => r.Err?
            case Ok((ts, rest)) =>
              match RunAll(z, n, old(slots[..]), ts)
              case Err => r.Err?
              case Ok(next) => r == Ok(Log(ts)) && slots[..] == next && reader.Rest() == rest
  {
    hide ParseTransform, Step;
    ghost var start, loaded := reader.Rest(), slots[..];
    ghost var done: seq<Transform> := [];
    var log: seq<LogEntry> := [];
    for k := 0 to count
      invariant reader.Valid() && |done| == k
      invariant Many(ParseTransform, start, k) == Ok((done, reader.Rest()))
      invariant RunAll(z, n, loaded, done) == Ok(slots[..])
      invariant log == Log(done)
    {
      ghost var rest, table := reader.Rest(), slots[..];
      var one := ReadAndExecute(z, reader, n, slots, log);
      if one.Err? {
        RecordsStop(z, n, start, rest, loaded, table, done, count);
        return Err;
      }
      var t := ParseTransform(rest).value.0;
      assert (done + [t])[..k] == done;
      done := done + [t];
      log := one.value;
    }
    return Ok(log);
  }

  lemma RecordsStop(z: Codec, n: nat, start: bytes, rest: bytes, loaded: Slots, table: Slots, done: seq<Transform>, count: nat)
    requires |done| < count && Many(ParseTransform, start, |done|) == Ok((done, rest)) && RunAll(z, n, loaded, done) == Ok(table)
    requires ParseTransform(rest).Err? || Step(z, n, table, ParseTransform(rest).value.0).Err?
    ensures Many(ParseTransform, start, count).Err? || RunAll(z, n, loaded, Many(ParseTransform, start, count).value.0).Err?
  {
    hide ParseTransform, Step;
    var k := |done| + 1;
    if Many(ParseTransform, start, count).Ok? {
      var all := Many(ParseTransform, start, count).value.0;
      ManyPrefix(ParseTransform, start, k, count);
      if RunAll(z, n, loaded, all).Ok? {
        RunPrefix(z, n, loaded, all, k);
      }
    }
  }

  /** The scan at the end: every slot defined, every slot but the final one used. */
  method CheckConsumed(slots: array<Slot>, finalId: nat) returns (ok: bool)
    ensures ok == AllConsumed(slots[..], finalId)
  {
    for i := 0 to slots.Length
      invariant forall x | 0 <= x < i :: slots[x].content.Some? && (x != finalId ==> slots[x].used)
    {
      if slots[i].content.None? || (i != finalId && !slots[i].used) {
        assert !(slots[..][i].content.Some? && (i != finalId ==> slots[..][i].used));
        return false;
      }
    }
    return true;
  }

  /** Decode one chunk off the reader. */
  method DecodeChunkEncoding(z: Codec, reader: Reader) returns (r: Result<seq<u32>>)
    requires reader.Valid()
    modifies reader
    ensures reader.Valid()
    ensures match DecodeChunk(z, old(reader.Rest()))
            case Err => r.Err?
            case Ok((values, rest)) => r == Ok(values) && reader.Rest() == rest
  {
    hide ParseHeader, StoreAll, RunAll, ValidFinal, AllConsumed, UnpackU32s;
    var header := ReadHeader(reader);
    if header.Err? { return Err; }
    var h := header.value;
    if !HeaderOk(h.numElements, h.slotCount, h.storedCount, h.transformCount, h.finalId) { return Err; }

    var slots := new Slot[h.slotCount](_ => EMPTY_SLOT);
    assert slots[..] == EmptySlots(h.slotCount);
    var stored := ReadAllStored(reader, slots, h.storedCount);
    if stored.Err? { return Err; }
    var log := RunAllRecords(z, reader, h.numElements, slots, h.transformCount);
    if log.Err? { return Err; }

    if !ValidFinal(log.value, h.finalId) { return Err; }
    var consumed := CheckConsumed(slots, h.finalId);
    if !consumed { return Err; }
    FinalDefined(slots[..], h.finalId);
    var data := slots[h.finalId].content.value;
    if |data| != h.numElements * U32_WIDTH { return Err; }
    var values := ReadU32s(data);
    return Ok(values);
  }

  lemma FinalDefined(slots: Slots, finalId: nat)
    requires AllConsumed(slots, finalId) && finalId < |slots|
    ensures slots[finalId].content.Some?
  {
  }
}
