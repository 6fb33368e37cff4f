/** Global facts about every accepted chunk, which the reader never checks as such: they
    follow from its local, one-slot-at-a-time checks. */
module ChunkFacts {
  import opened Basics
  import opened ChunkFormat
  import opened ChunkMachine
  import opened ZstdCodec
  import FieldLz
  import LiteralDict
  import Varint

  // ----- a program as a graph -------------------------------------------------

  predicate StoredAt(p: Program, x: nat) {
    exists i :: 0 <= i < |p.stored| && p.stored[i].streamId == x
  }

  function Out(t: Transform): nat { if t.outputs == [] then 0 else t.outputs[0] }

  /** Record `j`, one of the first `k`, writes slot `x`. */
  predicate WrittenBefore(ts: seq<Transform>, k: nat, x: nat)
    requires k <= |ts|
  {
    exists j :: 0 <= j < k && Out(ts[j]) == x
  }

  predicate Consumed(ts: seq<Transform>, x: nat) {
    exists k :: 0 <= k < |ts| && x in ts[k].inputs
  }

  /** The number of inputs each transform takes. */
  predicate Arity(t: Transform) {
    && |t.outputs| == 1
    && (t.transformId == ZSTD_ID ==> |t.inputs| == 1)
    && (t.transformId == FIELD_LZ_ID ==> |t.inputs| == 5)
    && (t.transformId == TRANSPOSE_SPLIT4_ID ==> |t.inputs| == 4)
    && (t.transformId == DELTA_INT_ID ==> |t.inputs| == 1)
    && (t.transformId == LITERAL_DICT_ID ==> |t.inputs| == 2)
    && t.transformId in {ZSTD_ID, FIELD_LZ_ID, TRANSPOSE_SPLIT4_ID, DELTA_INT_ID, LITERAL_DICT_ID}
  }

  /** Every slot is written once, and read only after it is written. */
  ghost predicate WellOrdered(p: Program) {
    && (forall i, j | 0 <= i < j < |p.stored| :: p.stored[i].streamId != p.stored[j].streamId)
    && (forall i | 0 <= i < |p.stored| :: p.stored[i].streamId < p.slotCount)
    && (forall k | 0 <= k < |p.transforms| :: WritesFresh(p, k))
    && (forall k, x | 0 <= k < |p.transforms| && x in p.transforms[k].inputs :: ReadsDefined(p, k, x))
  }

  ghost predicate WritesFresh(p: Program, k: nat)
    requires k < |p.transforms|
  {
    var t := p.transforms[k];
    Arity(t) && Out(t) < p.slotCount && !StoredAt(p, Out(t)) && !WrittenBefore(p.transforms, k, Out(t))
  }

  ghost predicate ReadsDefined(p: Program, k: nat, x: nat)
    requires k < |p.transforms|
  {
    x < p.slotCount && (StoredAt(p, x) || WrittenBefore(p.transforms, k, x))
  }

  /** Every slot is written, and every slot but the final one is read. */
  ghost predicate Complete(p: Program) {
    && (forall x: nat | x < p.slotCount :: StoredAt(p, x) || WrittenBefore(p.transforms, |p.transforms|, x))
    && (forall x: nat | x < p.slotCount && x != p.finalId :: Consumed(p.transforms, x))
  }

  // ----- the slot table tracks the graph --------------------------------------

  function Loaded(p: Program): Result<Slots> {
    StoreAll(EmptySlots(p.slotCount), p.stored)
  }

  /** The program cut off after `k` records. */
  function Cut(p: Program, k: nat): Program
    requires k <= |p.transforms|
  {
    p.(transforms := p.transforms[..k])
  }

  ghost predicate StoredSlots(p: Program, slots: Slots) {
    && |slots| == p.slotCount
    && (forall x: nat | x < |slots| :: slots[x].content.Some? <==> StoredAt(p, x))
    && (forall x: nat | x < |slots| :: !slots[x].used && slots[x].width.None?)
  }

  lemma {:induction false} LoadedIsStored(p: Program)
    requires Loaded(p).Ok?
    ensures StoredSlots(p, Loaded(p).value)
    ensures forall i, j | 0 <= i < j < |p.stored| :: p.stored[i].streamId != p.stored[j].streamId
    ensures forall i | 0 <= i < |p.stored| :: p.stored[i].streamId < p.slotCount
    decreases |p.stored|
  {
    if p.stored != [] {
      var q := p.(stored := p.stored[..|p.stored| - 1]);
      var last := p.stored[|p.stored| - 1];
      LoadedIsStored(q);
      StoreKeeps(p, q, Loaded(q).value, last);
    }
  }

  lemma StoreKeeps(p: Program, q: Program, slots: Slots, last: StoredStream)
    requires p.slotCount == q.slotCount && p.stored == q.stored + [last]
    requires StoredSlots(q, slots) && StoreOne(slots, last).Ok?
    ensures StoredSlots(p, StoreOne(slots, last).value)
    ensures last.streamId < p.slotCount && forall i | 0 <= i < |q.stored| :: q.stored[i].streamId != last.streamId
  {
    forall x: nat | x < |slots| ensures StoredAt(p, x) <==> StoredAt(q, x) || x == last.streamId {
      if StoredAt(q, x) {
        var i :| 0 <= i < |q.stored| && q.stored[i].streamId == x;
        assert p.stored[i].streamId == x;
      }
      if x == last.streamId {
        assert p.stored[|q.stored|].streamId == x;
      }
    }
    forall i | 0 <= i < |q.stored| ensures q.stored[i].streamId != last.streamId {
      assert StoredAt(q, q.stored[i].streamId);
    }
  }

  /** Defined slots are the stored ones and the outputs so far; used slots are the inputs so far. */
  ghost predicate Tracks(p: Program, slots: Slots) {
    && |slots| == p.slotCount
    && (forall x: nat | x < |slots| ::
          slots[x].content.Some? <==> StoredAt(p, x) || WrittenBefore(p.transforms, |p.transforms|, x))
    && (forall x: nat | x < |slots| :: slots[x].used <==> Consumed(p.transforms, x))
  }

  /** A recorded element width divides the stream's length. */
  ghost predicate WellTyped(slots: Slots) {
    forall x | 0 <= x < |slots| && slots[x].width.Some? ::
      var w := slots[x].width.value; slots[x].content.Some? && w != 0 && |slots[x].content.value| % w == 0
  }

  lemma ExecuteArity(z: Codec, n: nat, ins: seq<Typed>, t: Transform)
    requires |ins| == |t.inputs| && Execute(z, n, ins, t).Ok?
    ensures Arity(t)
  {
  }

  lemma DictWholeWords(valueBytes: bytes, dictOrd: bytes, width: nat)
    ensures LiteralDict.DecodeSpec(valueBytes, dictOrd, width).Ok? ==> |LiteralDict.DecodeSpec(valueBytes, dictOrd, width).value| % 4 == 0
  {
  }

  /** Every transform's output is a whole number of elements of the width it records. */
  lemma ExecuteTyped(z: Codec, n: nat, ins: seq<Typed>, t: Transform)
    requires Execute(z, n, ins, t).Ok?
    ensures var o := Execute(z, n, ins, t).value; o.width != 0 && |o.data| % o.width == 0
  {
    hide DecodeMagicless, Varint.ParseSingle, FieldLz.Meaning, LiteralDict.DecodeSpec;
    if t.transformId == LITERAL_DICT_ID && t.transformId != ZSTD_ID {
      if |ins| == 2 && Varint.ParseSingle(t.privateHeader).Ok? {
        DictWholeWords(ins[0].data, ins[1].data, Varint.ParseSingle(t.privateHeader).value);
      }
    }
  }

  /** What one accepted record does to the table. */
  lemma StepEffect(z: Codec, n: nat, slots: Slots, t: Transform)
    requires Step(z, n, slots, t).Ok?
    ensures Arity(t)
    ensures forall i | 0 <= i < |t.inputs| :: t.inputs[i] < |slots| && slots[t.inputs[i]].content.Some?
    ensures Out(t) < |slots| && slots[Out(t)].content.None? && Out(t) !in t.inputs
    ensures var next := Step(z, n, slots, t).value;
            && |next| == |slots|
            && (forall x: nat | x < |slots| :: next[x].content.Some? <==> slots[x].content.Some? || x == Out(t))
            && (forall x: nat | x < |slots| :: next[x].used <==> slots[x].used || x in t.inputs)
  {
    hide Execute;
    ExecuteArity(z, n, Gather(slots, t.inputs), t);
  }

  lemma StepTyped(z: Codec, n: nat, slots: Slots, t: Transform)
    requires Step(z, n, slots, t).Ok? && WellTyped(slots)
    ensures WellTyped(Step(z, n, slots, t).value)
  {
    hide Execute;
    ExecuteTyped(z, n, Gather(slots, t.inputs), t);
  }

  lemma SnocConsumed(ts: seq<Transform>, t: Transform, x: nat)
    ensures Consumed(ts + [t], x) <==> Consumed(ts, x) || x in t.inputs
  {
    if Consumed(ts, x) {
      var k :| 0 <= k < |ts| && x in ts[k].inputs;
      assert (ts + [t])[k] == ts[k];
    }
    if x in t.inputs {
      assert (ts + [t])[|ts|] == t;
    }
  }

  lemma SnocWritten(ts: seq<Transform>, t: Transform, x: nat)
    ensures WrittenBefore(ts + [t], |ts| + 1, x) <==> WrittenBefore(ts, |ts|, x) || Out(t) == x
    ensures WrittenBefore(ts + [t], |ts|, x) <==> WrittenBefore(ts, |ts|, x)
  {
    if WrittenBefore(ts, |ts|, x) {
      var j :| 0 <= j < |ts| && Out(ts[j]) == x;
      assert Out((ts + [t])[j]) == x;
    }
    if Out(t) == x {
      assert Out((ts + [t])[|ts|]) == x;
    }
  }

  lemma StepTracks(p: Program, t: Transform, z: Codec, n: nat, slots: Slots)
    requires Tracks(p, slots) && Step(z, n, slots, t).Ok?
    ensures Tracks(p.(transforms := p.transforms + [t]), Step(z, n, slots, t).value)
  {
    hide Step, StoredAt, WrittenBefore, Consumed;
    StepEffect(z, n, slots, t);
    var q, next := p.(transforms := p.transforms + [t]), Step(z, n, slots, t).value;
    forall x: nat | x < |slots|
      ensures StoredAt(q, x) <==> StoredAt(p, x)
      ensures next[x].content.Some? <==> StoredAt(p, x) || WrittenBefore(q.transforms, |q.transforms|, x)
      ensures next[x].used <==> Consumed(q.transforms, x)
    {
      SameStored(p, q, x);
      SnocWritten(p.transforms, t, x);
      SnocConsumed(p.transforms, t, x);
    }
  }

  lemma SameStored(p: Program, q: Program, x: nat)
    requires p.stored == q.stored
    ensures StoredAt(p, x) <==> StoredAt(q, x)
  {
  }

  ghost predicate OrderedRecords(p: Program) {
    && (forall k | 0 <= k < |p.transforms| :: WritesFresh(p, k))
    && (forall k, x | 0 <= k < |p.transforms| && x in p.transforms[k].inputs :: ReadsDefined(p, k, x))
  }

  lemma FreshLater(p: Program, t: Transform, k: nat)
    requires k < |p.transforms|
    ensures var q := p.(transforms := p.transforms + [t]); WritesFresh(q, k) <==> WritesFresh(p, k)
  {
    var q := p.(transforms := p.transforms + [t]);
    assert q.transforms[..k] == p.transforms[..k];
    assert forall j | 0 <= j < k :: q.transforms[j] == p.transforms[j];
  }

  lemma ReadsLater(p: Program, t: Transform, k: nat, x: nat)
    requires k < |p.transforms|
    ensures var q := p.(transforms := p.transforms + [t]); ReadsDefined(q, k, x) <==> ReadsDefined(p, k, x)
  {
    var q := p.(transforms := p.transforms + [t]);
    assert forall j | 0 <= j < k :: q.transforms[j] == p.transforms[j];
  }

  lemma StepOrdered(p: Program, t: Transform, z: Codec, n: nat, slots: Slots)
    requires Tracks(p, slots) && OrderedRecords(p) && Step(z, n, slots, t).Ok?
    ensures OrderedRecords(p.(transforms := p.transforms + [t]))
  {
    hide Step, StoredAt, WrittenBefore, Consumed, WritesFresh, ReadsDefined;
    var q := p.(transforms := p.transforms + [t]);
    forall k | 0 <= k < |q.transforms| ensures WritesFresh(q, k) {
      if k < |p.transforms| { FreshLater(p, t, k); } else { LastFresh(p, t, z, n, slots); }
    }
    forall k, x | 0 <= k < |q.transforms| && x in q.transforms[k].inputs ensures ReadsDefined(q, k, x) {
      if k < |p.transforms| { ReadsLater(p, t, k, x); } else { LastReads(p, t, z, n, slots, x); }
    }
  }

  lemma LastFresh(p: Program, t: Transform, z: Codec, n: nat, slots: Slots)
    requires Tracks(p, slots) && Step(z, n, slots, t).Ok?
    ensures WritesFresh(p.(transforms := p.transforms + [t]), |p.transforms|)
  {
    hide Step, Arity, WrittenBefore, StoredAt;
    StepEffect(z, n, slots, t);
    SnocWritten(p.transforms, t, Out(t));
    SameStored(p, p.(transforms := p.transforms + [t]), Out(t));
  }

  lemma LastReads(p: Program, t: Transform, z: Codec, n: nat, slots: Slots, x: nat)
    requires Tracks(p, slots) && Step(z, n, slots, t).Ok? && x in t.inputs
    ensures ReadsDefined(p.(transforms := p.transforms + [t]), |p.transforms|, x)
  {
    hide Step, Arity, WrittenBefore, StoredAt;
    StepEffect(z, n, slots, t);
    SnocWritten(p.transforms, t, x);
    SameStored(p, p.(transforms := p.transforms + [t]), x);
  }

  lemma StartTracks(p: Program, slots: Slots)
    requires StoredSlots(p, slots) && p.transforms == []
    ensures Tracks(p, slots) && WellTyped(slots) && OrderedRecords(p)
  {
  }

  /** After any number of accepted records, the table tracks the graph, every record reads
      what was defined and writes what was not, and every recorded width fits its stream. */
  lemma {:induction false} RunTracks(z: Codec, p: Program)
    requires Loaded(p).Ok? && RunAll(z, p.numElements, Loaded(p).value, p.transforms).Ok?
    ensures var slots := RunAll(z, p.numElements, Loaded(p).value, p.transforms).value;
            Tracks(p, slots) && WellTyped(slots) && OrderedRecords(p)
    decreases |p.transforms|
  {
    hide Step, Tracks, WellTyped, OrderedRecords, StoreAll, StoredSlots;
    if p.transforms == [] {
      LoadedIsStored(p);
      StartTracks(p, Loaded(p).value);
    } else {
      var init, t := p.transforms[..|p.transforms| - 1], p.transforms[|p.transforms| - 1];
      var q := p.(transforms := init);
      RunTracks(z, q);
      var slots := RunAll(z, p.numElements, Loaded(p).value, init).value;
      assert p == q.(transforms := q.transforms + [t]);
      StepTracks(q, t, z, p.numElements, slots);
      StepTyped(z, p.numElements, slots, t);
      StepOrdered(q, t, z, p.numElements, slots);
    }
  }

  /** In every state an accepted program passes through, a slot with a recorded element
      width holds a whole number of elements. */
  lemma SlotsStayTyped(z: Codec, p: Program, k: nat)
    requires RunProgram(z, p).Ok? && k <= |p.transforms|
    ensures RunAll(z, p.numElements, Loaded(p).value, p.transforms[..k]).Ok?
    ensures WellTyped(RunAll(z, p.numElements, Loaded(p).value, p.transforms[..k]).value)
  {
    hide Conclude, Step;
    RunPrefix(z, p.numElements, Loaded(p).value, p.transforms, k);
    RunTracks(z, Cut(p, k));
  }

  // ----- accepted programs ----------------------------------------------------

  /** Local checks add up: an accepted program writes every slot exactly once, reads only what
      was written before, leaves nothing but the final stream unread. */
  lemma AcceptedIsComplete(z: Codec, p: Program)
    requires RunProgram(z, p).Ok?
    ensures WellOrdered(p) && Complete(p) && p.finalId < p.slotCount && ValidFinal(Log(p.transforms), p.finalId)
  {
    hide ValidFinal, Step, StoreAll, RunAll;
    RunTracks(z, p);
    LoadedIsStored(p);
  }

  /** The last record that is not the final stream's producer cannot exist. */
  lemma LastWritesFinal(p: Program)
    requires WellOrdered(p) && Complete(p) && p.transforms != []
    ensures Out(p.transforms[|p.transforms| - 1]) == p.finalId
  {
    var last := |p.transforms| - 1;
    var x := Out(p.transforms[last]);
    assert WritesFresh(p, last);
    if x != p.finalId {
      assert Consumed(p.transforms, x);
      var k :| 0 <= k < |p.transforms| && x in p.transforms[k].inputs;
      ReadAfterWrite(p, last, k);
      assert false;
    }
  }

  /** A record's output is only read by later records. */
  lemma ReadAfterWrite(p: Program, j: nat, k: nat)
    requires WellOrdered(p) && j < |p.transforms| && k < |p.transforms|
    requires Out(p.transforms[j]) in p.transforms[k].inputs
    ensures j < k
  {
    var x := Out(p.transforms[j]);
    assert ReadsDefined(p, k, x);
    assert WritesFresh(p, j);
    var i :| 0 <= i < k && Out(p.transforms[i]) == x;
    if i != j { SameOutput(p, i, j); }
  }

  lemma SameOutput(p: Program, i: nat, j: nat)
    requires WellOrdered(p) && i < |p.transforms| && j < |p.transforms|
    requires Out(p.transforms[i]) == Out(p.transforms[j])
    ensures i == j
  {
    assert WritesFresh(p, i) && WritesFresh(p, j);
  }

  lemma {:induction false} FieldLzExists(log: seq<LogEntry>)
    ensures FieldLzOutputs(log) != [] ==> exists i :: 0 <= i < |log| && log[i].id == FIELD_LZ_ID && log[i].output == FieldLzOutputs(log)[0]
  {
    if log != [] && FieldLzOutputs(log) != [] {
      var init, last := log[..|log| - 1], log[|log| - 1];
      FieldLzExists(init);
      if FieldLzOutputs(init) != [] {
        var i :| 0 <= i < |init| && init[i].id == FIELD_LZ_ID && init[i].output == FieldLzOutputs(init)[0];
        assert log[i].id == FIELD_LZ_ID && log[i].output == FieldLzOutputs(log)[0];
      } else {
        assert log[|log| - 1].id == FIELD_LZ_ID;
      }
    }
  }

  lemma {:induction false} ProducerFound(log: seq<LogEntry>, id: nat)
    ensures Producer(log, id).Some? ==> exists i :: 0 <= i < |log| && log[i].output == id && log[i] == Producer(log, id).value
  {
    if log != [] {
      var init, last := log[..|log| - 1], log[|log| - 1];
      ProducerFound(init, id);
      if Producer(init, id).Some? {
        var i :| 0 <= i < |init| && init[i].output == id && init[i] == Producer(init, id).value;
        assert log[i] == init[i];
      } else if last.output == id {
        assert log[|log| - 1] == last;
      }
    }
  }

  /** The shape of an accepted program. */
  ghost predicate Shape(p: Program) {
    var ts, last := p.transforms, |p.transforms| - 1;
    && ts != []
    && Out(ts[last]) == p.finalId
    && (|| ts[last].transformId == FIELD_LZ_ID
        || (&& last >= 1
            && ts[last].transformId == DELTA_INT_ID && ts[last].inputs == [Out(ts[last - 1])]
            && ts[last - 1].transformId == FIELD_LZ_ID))
    && (forall k | 0 <= k < |ts| :: p.finalId !in ts[k].inputs)
  }

  lemma FinalNeverRead(p: Program)
    requires WellOrdered(p) && Complete(p) && p.transforms != []
    ensures forall k | 0 <= k < |p.transforms| :: p.finalId !in p.transforms[k].inputs
  {
    LastWritesFinal(p);
    forall k | 0 <= k < |p.transforms| ensures p.finalId !in p.transforms[k].inputs {
      if p.finalId in p.transforms[k].inputs {
        ReadAfterWrite(p, |p.transforms| - 1, k);
      }
    }
  }

  /** A delta that ends the program reads the record before it. */
  lemma DeltaReadsNeighbour(p: Program, i: nat)
    requires WellOrdered(p) && Complete(p) && p.transforms != [] && p.finalId < p.slotCount
    requires var last := p.transforms[|p.transforms| - 1];
             last.transformId == DELTA_INT_ID && |last.inputs| == 1 && i < |p.transforms| && last.inputs[0] == Out(p.transforms[i])
    ensures |p.transforms| >= 2 && i == |p.transforms| - 2
  {
    var last := |p.transforms| - 1;
    ReadAfterWrite(p, i, last);
    var x := Out(p.transforms[last - 1]);
    assert WritesFresh(p, last - 1);
    LastWritesFinal(p);
    if x == p.finalId { SameOutput(p, last - 1, last); }
    assert Consumed(p.transforms, x);
    var k :| 0 <= k < |p.transforms| && x in p.transforms[k].inputs;
    ReadAfterWrite(p, last - 1, k);
    assert x == p.transforms[last].inputs[0];
    SameOutput(p, i, last - 1);
  }

  /** The final stream is the last record's output and is never read; the records end in
      FieldLZ, or in FieldLZ and the delta that reads it. */
  lemma AcceptedShape(z: Codec, p: Program)
    requires RunProgram(z, p).Ok?
    ensures Shape(p)
  {
    AcceptedIsComplete(z, p);
    GraphShape(p);
  }

  lemma GraphShape(p: Program)
    requires WellOrdered(p) && Complete(p) && p.finalId < p.slotCount && ValidFinal(Log(p.transforms), p.finalId)
    ensures Shape(p)
  {
    hide Producer, FieldLzOutputs, Complete;
    var ts, log := p.transforms, Log(p.transforms);
    FieldLzExists(log);
    ProducerFound(log, p.finalId);
    var f :| 0 <= f < |log| && log[f].id == FIELD_LZ_ID && log[f].output == FieldLzOutputs(log)[0];
    var e :| 0 <= e < |log| && log[e].output == p.finalId && log[e] == Producer(log, p.finalId).value;
    LastWritesFinal(p);
    FinalNeverRead(p);
    EntryOut(p, e);
    EntryOut(p, f);
    SameOutput(p, e, |ts| - 1);
    if log[e].id != FIELD_LZ_ID {
      assert ts[e].inputs == [Out(ts[f])];
      DeltaReadsNeighbour(p, f);
    }
  }

  lemma EntryOut(p: Program, k: nat)
    requires WellOrdered(p) && k < |p.transforms|
    ensures var e, t := EntryOf(p.transforms[k]), p.transforms[k];
            && e.output == Out(t) && e.id == t.transformId
            && (t.transformId == DELTA_INT_ID ==> |t.inputs| == 1 && e.input == Some(t.inputs[0]))
  {
    assert WritesFresh(p, k);
  }

  // ----- liveness -------------------------------------------------------------

  /** From slot `x`, through records numbered `k` and up, each reading the output of the
      one before, one comes to the final stream. */
  ghost predicate Reaches(p: Program, x: nat, k: nat)
    requires k <= |p.transforms|
    decreases |p.transforms| - k
  {
    x == p.finalId ||
    exists j | k <= j < |p.transforms| :: x in p.transforms[j].inputs && Reaches(p, Out(p.transforms[j]), j + 1)
  }

  lemma {:induction false} OutputReaches(p: Program, j: nat)
    requires WellOrdered(p) && Complete(p) && j < |p.transforms|
    ensures Reaches(p, Out(p.transforms[j]), j + 1)
    decreases |p.transforms| - j
  {
    var x := Out(p.transforms[j]);
    assert WritesFresh(p, j);
    if x != p.finalId {
      assert Consumed(p.transforms, x);
      var k :| 0 <= k < |p.transforms| && x in p.transforms[k].inputs;
      ReadAfterWrite(p, j, k);
      OutputReaches(p, k);
    }
  }

  /** No dead streams: in an accepted chunk every slot reaches the final stream along records
      of increasing number, so the graph is acyclic and all of it is needed. */
  lemma EverySlotReachesFinal(z: Codec, p: Program, x: nat)
    requires RunProgram(z, p).Ok? && x < p.slotCount
    ensures Reaches(p, x, 0)
  {
    AcceptedIsComplete(z, p);
    if x != p.finalId {
      assert Consumed(p.transforms, x);
      var k :| 0 <= k < |p.transforms| && x in p.transforms[k].inputs;
      OutputReaches(p, k);
    }
  }

  // ----- counting -------------------------------------------------------------

  function StoredIds(p: Program): (ids: seq<nat>)
    ensures |ids| == |p.stored| && forall i | 0 <= i < |ids| :: ids[i] == p.stored[i].streamId
  {
    seq(|p.stored|, i requires 0 <= i < |p.stored| => p.stored[i].streamId)
  }

  function OutputIds(p: Program): (ids: seq<nat>)
    ensures |ids| == |p.transforms| && forall k | 0 <= k < |ids| :: ids[k] == Out(p.transforms[k])
  {
    seq(|p.transforms|, k requires 0 <= k < |p.transforms| => Out(p.transforms[k]))
  }

  predicate InRange(x: nat, n: nat) { x < n }

  function ToSet(ids: seq<nat>): set<nat> { set x | x in ids }

  lemma {:induction false} BelowSize(n: nat, all: set<nat>)
    requires forall x: nat :: x in all <==> InRange(x, n)
    ensures |all| == n
  {
    if n == 0 {
      forall x: nat ensures x !in all { assert !InRange(x, 0); }
      assert all == {};
    } else {
      assert InRange(n - 1, n);
      var rest := all - {n - 1};
      forall x: nat ensures x in rest <==> InRange(x, n - 1) {
        assert x in all <==> InRange(x, n);
      }
      BelowSize(n - 1, rest);
    }
  }

  lemma {:induction false} DistinctSize(ids: seq<nat>)
    requires forall i, j | 0 <= i < j < |ids| :: ids[i] != ids[j]
    ensures |ToSet(ids)| == |ids|
  {
    if ids != [] {
      var init, last := ids[..|ids| - 1], ids[|ids| - 1];
      DistinctSize(init);
      assert ids == init + [last];
      assert ToSet(ids) == ToSet(init) + {last};
    }
  }

  /** Exact counting: every slot is stored or computed, never both. */
  lemma AcceptedCounts(z: Codec, p: Program)
    requires RunProgram(z, p).Ok?
    ensures |p.stored| + |p.transforms| == p.slotCount
  {
    AcceptedIsComplete(z, p);
    GraphCounts(p);
  }

  lemma GraphCounts(p: Program)
    requires WellOrdered(p) && Complete(p)
    ensures |p.stored| + |p.transforms| == p.slotCount
  {
    var stored, outputs := StoredIds(p), OutputIds(p);
    DistinctSize(stored);
    OutputsDistinct(p);
    DistinctSize(outputs);
    Partition(p);
    BelowSize(p.slotCount, ToSet(stored) + ToSet(outputs));
  }

  lemma OutputsDistinct(p: Program)
    requires WellOrdered(p)
    ensures forall i, j | 0 <= i < j < |OutputIds(p)| :: OutputIds(p)[i] != OutputIds(p)[j]
  {
    forall i, j | 0 <= i < j < |p.transforms| ensures Out(p.transforms[i]) != Out(p.transforms[j]) {
      if Out(p.transforms[i]) == Out(p.transforms[j]) { SameOutput(p, i, j); }
    }
  }

  lemma Partition(p: Program)
    requires WellOrdered(p) && Complete(p)
    ensures forall x: nat :: x in ToSet(StoredIds(p)) + ToSet(OutputIds(p)) <==> InRange(x, p.slotCount)
    ensures ToSet(StoredIds(p)) !! ToSet(OutputIds(p))
  {
    forall x: nat ensures x in ToSet(StoredIds(p)) <==> StoredAt(p, x) {
      if StoredAt(p, x) {
        var i :| 0 <= i < |p.stored| && p.stored[i].streamId == x;
        assert StoredIds(p)[i] == x;
      }
    }
    forall x: nat ensures x in ToSet(OutputIds(p)) <==> WrittenBefore(p.transforms, |p.transforms|, x) {
      if WrittenBefore(p.transforms, |p.transforms|, x) {
        var k :| 0 <= k < |p.transforms| && Out(p.transforms[k]) == x;
        assert OutputIds(p)[k] == x;
      }
    }
    forall x: nat | WrittenBefore(p.transforms, |p.transforms|, x) ensures x < p.slotCount && !StoredAt(p, x) {
      var k :| 0 <= k < |p.transforms| && Out(p.transforms[k]) == x;
      assert WritesFresh(p, k);
    }
  }

  /** An accepted chunk yields exactly the number of values it declares. */
  lemma AcceptedLength(z: Codec, p: Program)
    requires RunProgram(z, p).Ok?
    ensures |RunProgram(z, p).value| == p.numElements && 1 <= p.numElements <= MAX_CHUNK_ELEMENTS
  {
    hide ValidFinal, Step, StoreAll, RunAll, AllConsumed;
  }
}
