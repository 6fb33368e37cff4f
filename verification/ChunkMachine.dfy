/** What a decode program does: the slot table, the five transforms, and the checks of
    src/frame.rs:256-362 and 371-632. Reading and running are separate here; module
    ChunkDecoder does both at once, as the source does. */
module ChunkMachine {
  import opened Basics
  import opened Varint
  import opened ChunkFormat
  import opened ZstdCodec
  import Delta
  import FieldLzDecoder
  import LiteralDict
  import Transpose

  datatype Slot = Slot(content: Option<bytes>, used: bool, width: Option<nat>)

  const EMPTY_SLOT := Slot(None, false, None)

  type Slots = seq<Slot>

  function EmptySlots(n: nat): (s: Slots)
    ensures |s| == n && forall i | 0 <= i < n :: s[i] == EMPTY_SLOT
  {
    seq(n, _ => EMPTY_SLOT)
  }

  // ----- stored streams -------------------------------------------------------

  function StoreOne(slots: Slots, s: StoredStream): Result<Slots> {
    if s.streamId >= |slots| || slots[s.streamId].content.Some? then Err
    else Ok(slots[s.streamId := slots[s.streamId].(content := Some(s.payload))])
  }

  function StoreAll(slots: Slots, stored: seq<StoredStream>): (r: Result<Slots>)
    ensures r.Ok? ==> |r.value| == |slots|
  {
    if stored == [] then Ok(slots)
    else
      var before :- StoreAll(slots, stored[..|stored| - 1]);
      StoreOne(before, stored[|stored| - 1])
  }

  // ----- one transform --------------------------------------------------------

  /** A stream as a transform sees it: its bytes and, if some transform recorded one, its element width. */
  datatype Typed = Typed(data: bytes, width: Option<nat>) {
    predicate Allows(w: nat) { width.None? || width.value == w }
  }

  predicate InputsReady(slots: Slots, ids: seq<nat>) {
    forall i | 0 <= i < |ids| :: ids[i] < |slots| && slots[ids[i]].content.Some?
  }

  predicate OutputsFree(slots: Slots, ids: seq<nat>) {
    && (forall i | 0 <= i < |ids| :: ids[i] < |slots| && slots[ids[i]].content.None?)
    && (forall i, j | 0 <= i < j < |ids| :: ids[i] != ids[j])
  }

  function Gather(slots: Slots, ids: seq<nat>): (ins: seq<Typed>)
    requires InputsReady(slots, ids)
    ensures |ins| == |ids|
    ensures forall i | 0 <= i < |ids| :: ins[i] == Typed(slots[ids[i]].content.value, slots[ids[i]].width)
  {
    seq(|ids|, i requires 0 <= i < |ids| => Typed(slots[ids[i]].content.value, slots[ids[i]].width))
  }

  function MarkUsed(slots: Slots, ids: seq<nat>): (marked: Slots)
    requires forall i | 0 <= i < |ids| :: ids[i] < |slots|
    ensures |marked| == |slots|
    ensures forall x | 0 <= x < |slots| :: marked[x] == if x in ids then slots[x].(used := true) else slots[x]
  {
    if ids == [] then slots
    else
      var before := MarkUsed(slots, ids[..|ids| - 1]);
      var last := ids[|ids| - 1];
      assert ids == ids[..|ids| - 1] + [last];
      before[last := before[last].(used := true)]
  }

  datatype Output = Output(data: bytes, width: nat)

  function ExecuteZstd(z: Codec, ins: seq<Typed>, header: bytes): Result<Output> {
    if |ins| != 1 then Err
    else
      var width :- ParseSingle(header);
      var data :- DecodeMagicless(z, ins[0].data, width);
      Ok(Output(data, width))
  }

  predicate FieldLzWidths(ins: seq<Typed>) {
    |ins| == 5 && ins[0].Allows(4) && ins[1].Allows(2) && ins[2].Allows(4) && ins[3].Allows(4) && ins[4].Allows(4)
  }

  function FieldLzInput(ins: seq<Typed>): FieldLzDecoder.SideStreams
    requires |ins| == 5
  {
    FieldLzDecoder.SideStreams(ins[0].data, ins[1].data, ins[2].data, ins[3].data, ins[4].data)
  }

  function ExecuteFieldLz(n: nat, ins: seq<Typed>, header: bytes): Result<Output> {
    if |ins| != FIELD_LZ_INPUT_COUNT then Err
    else
      var declared :- ParseSingle(header);
      if declared != n || !FieldLzWidths(ins) then Err
      else
        var data :- FieldLzDecoder.DecodeSpec(FieldLzInput(ins), n);
        Ok(Output(data, 4))
  }

  function ExecuteSplit4(n: nat, ins: seq<Typed>, header: bytes): Result<Output> {
    if header != [] || |ins| != 4 || !(ins[0].Allows(1) && ins[1].Allows(1) && ins[2].Allows(1) && ins[3].Allows(1)) then Err
    else
      var data :- Transpose.DecodeSpec(Transpose.Lanes(ins[0].data, ins[1].data, ins[2].data, ins[3].data), n);
      Ok(Output(data, 4))
  }

  function ExecuteDelta(ins: seq<Typed>, header: bytes): Result<Output> {
    if |ins| != 1 || header != [] || !ins[0].Allows(4) then Err
    else
      var data :- Delta.DecodeSpec(ins[0].data);
      Ok(Output(data, 4))
  }

  function ExecuteDict(ins: seq<Typed>, header: bytes): Result<Output> {
    if |ins| != 2 then Err
    else
      var width :- ParseSingle(header);
      if (width != 1 && width != 2) || !ins[0].Allows(4) || !ins[1].Allows(width) then Err
      else
        var data :- LiteralDict.DecodeSpec(ins[0].data, ins[1].data, width);
        Ok(Output(data, 4))
  }

  /** What a transform computes from its inputs; each writes one output. */
  function Execute(z: Codec, n: nat, ins: seq<Typed>, t: Transform): (r: Result<Output>)
    ensures r.Ok? ==> |t.outputs| == 1
  {
    if |t.outputs| != 1 then Err
    else if t.transformId == ZSTD_ID then ExecuteZstd(z, ins, t.privateHeader)
    else if t.transformId == FIELD_LZ_ID then ExecuteFieldLz(n, ins, t.privateHeader)
    else if t.transformId == TRANSPOSE_SPLIT4_ID then ExecuteSplit4(n, ins, t.privateHeader)
    else if t.transformId == DELTA_INT_ID then ExecuteDelta(ins, t.privateHeader)
    else if t.transformId == LITERAL_DICT_ID then ExecuteDict(ins, t.privateHeader)
    else Err
  }

  /** Inputs defined, outputs not yet; inputs become used and the output is filled in. */
  function Step(z: Codec, n: nat, slots: Slots, t: Transform): (r: Result<Slots>)
    ensures r.Ok? ==> |r.value| == |slots|
  {
    if |t.inputs| > TRANSFORM_INPUT_LIMIT || !InputsReady(slots, t.inputs)
       || |t.outputs| > TRANSFORM_OUT_LIMIT || !OutputsFree(slots, t.outputs)
    then Err
    else
      var out :- Execute(z, n, Gather(slots, t.inputs), t);
      var marked := MarkUsed(slots, t.inputs);
      var id := t.outputs[0];
      Ok(marked[id := marked[id].(content := Some(out.data), width := Some(out.width))])
  }

  function RunAll(z: Codec, n: nat, slots: Slots, ts: seq<Transform>): (r: Result<Slots>)
    ensures r.Ok? ==> |r.value| == |slots|
  {
    if ts == [] then Ok(slots)
    else
      var before :- RunAll(z, n, slots, ts[..|ts| - 1]);
      Step(z, n, before, ts[|ts| - 1])
  }

  // ----- the execution log and the final checks -------------------------------

  datatype LogEntry = LogEntry(id: nat, input: Option<nat>, output: nat)

  function EntryOf(t: Transform): LogEntry {
    LogEntry(t.transformId,
             if t.inputs == [] then None else Some(t.inputs[0]),
             if t.outputs == [] then 0 else t.outputs[0])
  }

  function Log(ts: seq<Transform>): (log: seq<LogEntry>)
    ensures |log| == |ts|
    ensures forall k | 0 <= k < |ts| :: log[k] == EntryOf(ts[k])
  {
    if ts == [] then [] else Log(ts[..|ts| - 1]) + [EntryOf(ts[|ts| - 1])]
  }

  function FieldLzOutputs(log: seq<LogEntry>): seq<nat> {
    if log == [] then []
    else FieldLzOutputs(log[..|log| - 1]) + if log[|log| - 1].id == FIELD_LZ_ID then [log[|log| - 1].output] else []
  }

  /** The first record that wrote `id`. */
  function Producer(log: seq<LogEntry>, id: nat): Option<LogEntry> {
    if log == [] then None
    else
      var earlier := Producer(log[..|log| - 1], id);
      if earlier.Some? then earlier
      else if log[|log| - 1].output == id then Some(log[|log| - 1])
      else None
  }

  /** Exactly one FieldLZ, and the final stream written by it or by a delta that reads its output. */
  predicate ValidFinal(log: seq<LogEntry>, finalId: nat) {
    var fieldLz := FieldLzOutputs(log);
    && |fieldLz| == 1
    && match Producer(log, finalId)
       case None => false
       case Some(e) =>
         if e.id == FIELD_LZ_ID then e.output == fieldLz[0]
         else e.id == DELTA_INT_ID && e.input == Some(fieldLz[0])
  }

  predicate AllConsumed(slots: Slots, finalId: nat) {
    forall x | 0 <= x < |slots| :: slots[x].content.Some? && (x != finalId ==> slots[x].used)
  }

  predicate HeaderOk(numElements: nat, slotCount: nat, storedCount: nat, transformCount: nat, finalId: nat) {
    && 1 <= numElements <= MAX_CHUNK_ELEMENTS
    && slotCount <= STREAM_LIMIT && transformCount <= TRANSFORM_LIMIT
    && storedCount <= slotCount && finalId < slotCount
  }

  /** The checks after the last record, and the chunk's values. */
  function Conclude(slots: Slots, log: seq<LogEntry>, numElements: nat, finalId: nat): Result<seq<u32>>
    requires finalId < |slots|
  {
    if !ValidFinal(log, finalId) || !AllConsumed(slots, finalId) then Err
    else
      var data := slots[finalId].content.value;
      if |data| != numElements * U32_WIDTH then Err else Ok(UnpackU32s(data))
  }

  function RunProgram(z: Codec, p: Program): Result<seq<u32>> {
    if !HeaderOk(p.numElements, p.slotCount, |p.stored|, |p.transforms|, p.finalId) then Err
    else
      var loaded :- StoreAll(EmptySlots(p.slotCount), p.stored);
      var done :- RunAll(z, p.numElements, loaded, p.transforms);
      Conclude(done, Log(p.transforms), p.numElements, p.finalId)
  }

  /** Decode one chunk: read its program, run it, leave the rest. */
  function DecodeChunk(z: Codec, s: bytes): Result<(seq<u32>, bytes)> {
    var (p, rest) :- ParseProgram(s);
    var values :- RunProgram(z, p);
    Ok((values, rest))
  }

  // ----- prefixes -------------------------------------------------------------

  lemma {:induction false} StorePrefix(slots: Slots, stored: seq<StoredStream>, k: nat)
    requires k <= |stored| && StoreAll(slots, stored).Ok?
    ensures StoreAll(slots, stored[..k]).Ok?
    decreases |stored|
  {
    if k == |stored| {
      assert stored[..k] == stored;
    } else {
      assert stored[..|stored| - 1][..k] == stored[..k];
      StorePrefix(slots, stored[..|stored| - 1], k);
    }
  }

  lemma {:induction false} RunPrefix(z: Codec, n: nat, slots: Slots, ts: seq<Transform>, k: nat)
    requires k <= |ts| && RunAll(z, n, slots, ts).Ok?
    ensures RunAll(z, n, slots, ts[..k]).Ok?
    decreases |ts|
  {
    if k == |ts| {
      assert ts[..k] == ts;
    } else {
      assert ts[..|ts| - 1][..k] == ts[..k];
      RunPrefix(z, n, slots, ts[..|ts| - 1], k);
    }
  }

  lemma {:induction false} RunAppend(z: Codec, n: nat, slots: Slots, a: seq<Transform>, b: seq<Transform>)
    requires RunAll(z, n, slots, a).Ok?
    ensures RunAll(z, n, slots, a + b) == RunAll(z, n, RunAll(z, n, slots, a).value, b)
    decreases |b|
  {
    if b == [] {
      assert a + b == a;
    } else {
      hide Step;
      assert (a + b)[..|a + b| - 1] == a + b[..|b| - 1];
      RunAppend(z, n, slots, a, b[..|b| - 1]);
    }
  }

  lemma {:induction false} StoreAppend(slots: Slots, a: seq<StoredStream>, b: seq<StoredStream>)
    requires StoreAll(slots, a).Ok?
    ensures StoreAll(slots, a + b) == StoreAll(StoreAll(slots, a).value, b)
    decreases |b|
  {
    if b == [] {
      assert a + b == a;
    } else {
      hide StoreOne;
      assert (a + b)[..|a + b| - 1] == a + b[..|b| - 1];
      StoreAppend(slots, a, b[..|b| - 1]);
    }
  }
}
