/** What a chunk says, as equations between its slots: no slot table, no flags, no log, no order
    of execution. The reader accepts exactly the chunks whose equations have a solution. */
module ChunkMeaning {
  import opened Basics
  import opened ChunkFormat
  import opened ChunkMachine
  import opened ChunkFacts
  import opened ZstdCodec

  /** A typed stream for every slot. */
  type Assignment = seq<Typed>

  predicate Within(v: Assignment, ids: seq<nat>) {
    forall i | 0 <= i < |ids| :: ids[i] < |v|
  }

  function Picked(v: Assignment, ids: seq<nat>): (ins: seq<Typed>)
    requires Within(v, ids)
    ensures |ins| == |ids| && forall i | 0 <= i < |ids| :: ins[i] == v[ids[i]]
  {
    seq(|ids|, i requires 0 <= i < |ids| => v[ids[i]])
  }

  predicate StoredEquation(v: Assignment, s: StoredStream) {
    s.streamId < |v| && v[s.streamId] == Typed(s.payload, None)
  }

  predicate RecordEquation(z: Codec, n: nat, v: Assignment, t: Transform) {
    && Out(t) < |v| && Within(v, t.inputs)
    && match Execute(z, n, Picked(v, t.inputs), t)
       case Err => false
       case Ok(o) => v[Out(t)] == Typed(o.data, Some(o.width))
  }

  /** Every stored slot holds its payload, every computed slot what its record makes of others. */
  ghost predicate Solves(z: Codec, p: Program, v: Assignment) {
    && |v| == p.slotCount
    && (forall s | s in p.stored :: StoredEquation(v, s))
    && (forall t | t in p.transforms :: RecordEquation(z, p.numElements, v, t))
  }

  /** `t` is the one FieldLZ record. */
  ghost predicate OnlyFieldLz(ts: seq<Transform>, t: Transform) {
    t in ts && t.transformId == FIELD_LZ_ID && forall u | u in ts && u.transformId == FIELD_LZ_ID :: u == t
  }

  /** `u` writes the final stream, and is the FieldLZ record or a delta that reads it. */
  ghost predicate FinishedBy(p: Program, t: Transform, u: Transform) {
    && OnlyFieldLz(p.transforms, t) && u in p.transforms && Out(u) == p.finalId
    && (u == t || (u.transformId == DELTA_INT_ID && u.inputs == [Out(t)]))
  }

  ghost predicate LegalFinal(p: Program) {
    exists t, u :: FinishedBy(p, t, u)
  }

  ghost predicate LegalGraph(p: Program) {
    && HeaderOk(p.numElements, p.slotCount, |p.stored|, |p.transforms|, p.finalId)
    && WellOrdered(p) && Complete(p) && LegalFinal(p)
  }

  // ----- the solution is what the slot table holds -----------------------------

  /** Whatever a slot holds is what is assigned to it. */
  ghost predicate Agrees(slots: Slots, v: Assignment) {
    && |slots| == |v|
    && forall x: nat | x < |slots| && slots[x].content.Some? :: v[x] == Typed(slots[x].content.value, slots[x].width)
  }

  function View(slots: Slots): (v: Assignment)
    ensures Agrees(slots, v)
  {
    seq(|slots|, x requires 0 <= x < |slots| =>
      if slots[x].content.Some? then Typed(slots[x].content.value, slots[x].width) else Typed([], None))
  }

  lemma GatherIsPicked(slots: Slots, v: Assignment, ids: seq<nat>)
    requires Agrees(slots, v) && InputsReady(slots, ids)
    ensures Within(v, ids) && Gather(slots, ids) == Picked(v, ids)
  {
  }

  lemma StepSolves(z: Codec, n: nat, slots: Slots, t: Transform, v: Assignment)
    requires Step(z, n, slots, t).Ok? && Agrees(Step(z, n, slots, t).value, v)
    ensures Agrees(slots, v) && RecordEquation(z, n, v, t)
  {
    hide Execute;
    ExecuteArity(z, n, Gather(slots, t.inputs), t);
    GatherIsPicked(slots, v, t.inputs);
  }

  lemma {:induction false} RunSolves(z: Codec, n: nat, slots: Slots, ts: seq<Transform>, v: Assignment)
    requires RunAll(z, n, slots, ts).Ok? && Agrees(RunAll(z, n, slots, ts).value, v)
    ensures Agrees(slots, v) && forall t | t in ts :: RecordEquation(z, n, v, t)
  {
    hide Step, Agrees, RecordEquation, RunAll;
    if ts == [] {
      NothingRuns(z, n, slots);
    } else {
      var init, last := ts[..|ts| - 1], ts[|ts| - 1];
      LastRuns(z, n, slots, ts);
      StepSolves(z, n, RunAll(z, n, slots, init).value, last, v);
      RunSolves(z, n, slots, init, v);
      assert ts == init + [last];
    }
  }

  lemma NothingRuns(z: Codec, n: nat, slots: Slots)
    ensures RunAll(z, n, slots, []) == Ok(slots)
  {
  }

  lemma LastRuns(z: Codec, n: nat, slots: Slots, ts: seq<Transform>)
    requires ts != [] && RunAll(z, n, slots, ts).Ok?
    ensures RunAll(z, n, slots, ts[..|ts| - 1]).Ok?
    ensures RunAll(z, n, slots, ts) == Step(z, n, RunAll(z, n, slots, ts[..|ts| - 1]).value, ts[|ts| - 1])
  {
    hide Step;
  }

  lemma AgreedBefore(slots: Slots, s: StoredStream, v: Assignment)
    requires StoreOne(slots, s).Ok? && Agrees(StoreOne(slots, s).value, v)
    ensures Agrees(slots, v)
  {
  }

  lemma StoredSays(slots: Slots, s: StoredStream, v: Assignment)
    requires StoreOne(slots, s).Ok? && Agrees(StoreOne(slots, s).value, v)
    requires forall x: nat | x < |slots| :: slots[x].width.None?
    ensures forall x: nat | x < |slots| :: StoreOne(slots, s).value[x].width.None?
    ensures StoredEquation(v, s)
  {
  }

  lemma {:induction false} StoreSolves(slots: Slots, ss: seq<StoredStream>, v: Assignment)
    requires StoreAll(slots, ss).Ok? && Agrees(StoreAll(slots, ss).value, v)
    requires forall x: nat | x < |slots| :: slots[x].width.None?
    ensures forall x: nat | x < |slots| :: StoreAll(slots, ss).value[x].width.None?
    ensures forall s | s in ss :: StoredEquation(v, s)
  {
    if ss != [] {
      hide Agrees, StoredEquation, StoreOne;
      var init, last := ss[..|ss| - 1], ss[|ss| - 1];
      AgreedBefore(StoreAll(slots, init).value, last, v);
      StoreSolves(slots, init, v);
      StoredSays(StoreAll(slots, init).value, last, v);
      assert ss == init + [last];
    }
  }

  // ----- a solution runs --------------------------------------------------------

  lemma {:induction false} SolutionStores(z: Codec, p: Program, v: Assignment, k: nat)
    requires k <= |p.stored| && Solves(z, p, v) && WellOrdered(p)
    ensures StoreAll(EmptySlots(p.slotCount), p.stored[..k]).Ok?
    ensures Agrees(StoreAll(EmptySlots(p.slotCount), p.stored[..k]).value, v)
  {
    var now := p.stored[..k];
    if k > 0 {
      var q := p.(stored := p.stored[..k - 1]);
      SolutionStores(z, p, v, k - 1);
      assert now[..k - 1] == q.stored;
      LoadedIsStored(q);
      NotYetStored(p, k - 1);
      assert p.stored[k - 1] in p.stored;
      hide WellOrdered, Solves, StoredAt, RecordEquation;
      StoreAgrees(Loaded(q).value, p.stored[k - 1], v);
    }
  }

  lemma NotYetStored(p: Program, k: nat)
    requires k < |p.stored| && WellOrdered(p)
    ensures !StoredAt(p.(stored := p.stored[..k]), p.stored[k].streamId)
  {
  }

  lemma StoreAgrees(slots: Slots, s: StoredStream, v: Assignment)
    requires s.streamId < |slots| && slots[s.streamId].content.None? && slots[s.streamId].width.None?
    requires Agrees(slots, v) && StoredEquation(v, s)
    ensures StoreOne(slots, s).Ok? && Agrees(StoreOne(slots, s).value, v)
  {
  }

  lemma SolutionSteps(z: Codec, n: nat, slots: Slots, t: Transform, v: Assignment)
    requires Agrees(slots, v) && RecordEquation(z, n, v, t)
    requires InputsReady(slots, t.inputs) && slots[Out(t)].content.None?
    ensures Step(z, n, slots, t).Ok? && Agrees(Step(z, n, slots, t).value, v)
  {
    hide Execute;
    GatherIsPicked(slots, v, t.inputs);
    ExecuteArity(z, n, Picked(v, t.inputs), t);
  }

  lemma CutTracks(p: Program, k: nat, slots: Slots)
    requires k < |p.transforms| && WellOrdered(p) && Tracks(Cut(p, k), slots)
    ensures InputsReady(slots, p.transforms[k].inputs)
    ensures Out(p.transforms[k]) < |slots| && slots[Out(p.transforms[k])].content.None?
  {
    var q, t := Cut(p, k), p.transforms[k];
    forall x: nat ensures (StoredAt(q, x) <==> StoredAt(p, x)) && (WrittenBefore(q.transforms, k, x) <==> WrittenBefore(p.transforms, k, x)) {
    }
    assert WritesFresh(p, k);
    forall i | 0 <= i < |t.inputs| ensures t.inputs[i] < |slots| && slots[t.inputs[i]].content.Some? {
      assert ReadsDefined(p, k, t.inputs[i]);
    }
  }

  lemma {:induction false} SolutionRuns(z: Codec, p: Program, v: Assignment, k: nat)
    requires k <= |p.transforms| && Solves(z, p, v) && WellOrdered(p)
    ensures Loaded(p).Ok?
    ensures RunAll(z, p.numElements, Loaded(p).value, p.transforms[..k]).Ok?
    ensures Agrees(RunAll(z, p.numElements, Loaded(p).value, p.transforms[..k]).value, v)
  {
    hide Step, Agrees, RecordEquation, StoreAll, WellOrdered, Tracks;
    if k == 0 {
      SolutionStores(z, p, v, |p.stored|);
      assert p.stored[..|p.stored|] == p.stored;
    } else {
      SolutionRuns(z, p, v, k - 1);
      assert p.transforms[..k][..k - 1] == p.transforms[..k - 1];
      var slots := RunAll(z, p.numElements, Loaded(p).value, p.transforms[..k - 1]).value;
      RunTracks(z, Cut(p, k - 1));
      CutTracks(p, k - 1, slots);
      assert p.transforms[k - 1] in p.transforms;
      SolutionSteps(z, p.numElements, slots, p.transforms[k - 1], v);
    }
  }

  // ----- the final checks, without the log ---------------------------------------

  lemma LogInit(ts: seq<Transform>)
    requires ts != []
    ensures var init, last := Log(ts[..|ts| - 1]), EntryOf(ts[|ts| - 1]);
            && FieldLzOutputs(Log(ts)) == FieldLzOutputs(init) + (if last.id == FIELD_LZ_ID then [last.output] else [])
            && last.id == ts[|ts| - 1].transformId
  {
    assert Log(ts)[..|ts| - 1] == Log(ts[..|ts| - 1]);
  }

  ghost predicate NoFieldLz(ts: seq<Transform>) {
    forall t | t in ts :: t.transformId != FIELD_LZ_ID
  }

  lemma NoFieldLzSnoc(ts: seq<Transform>)
    requires ts != []
    ensures NoFieldLz(ts) <==> NoFieldLz(ts[..|ts| - 1]) && ts[|ts| - 1].transformId != FIELD_LZ_ID
  {
    assert ts == ts[..|ts| - 1] + [ts[|ts| - 1]];
  }

  lemma {:induction false} NoneCounted(ts: seq<Transform>)
    ensures FieldLzOutputs(Log(ts)) == [] <==> NoFieldLz(ts)
  {
    if ts != [] {
      hide Log, FieldLzOutputs, EntryOf, NoFieldLz;
      NoneCounted(ts[..|ts| - 1]);
      LogInit(ts);
      NoFieldLzSnoc(ts);
    } else {
      assert Log(ts) == [];
    }
  }

  lemma {:induction false} OneCounted(ts: seq<Transform>) returns (t: Transform)
    requires |FieldLzOutputs(Log(ts))| == 1
    ensures OnlyFieldLz(ts, t) && FieldLzOutputs(Log(ts)) == [EntryOf(t).output]
  {
    var init, last := ts[..|ts| - 1], ts[|ts| - 1];
    hide FieldLzOutputs, EntryOf;
    LogInit(ts);
    assert ts == init + [last];
    if last.transformId == FIELD_LZ_ID {
      NoneCounted(init);
      t := last;
    } else {
      t := OneCounted(init);
    }
  }

  ghost predicate DistinctOutputs(ts: seq<Transform>) {
    forall i, j | 0 <= i < j < |ts| :: Out(ts[i]) != Out(ts[j])
  }

  lemma OnlyInInit(ts: seq<Transform>, t: Transform)
    requires ts != [] && OnlyFieldLz(ts, t) && DistinctOutputs(ts)
    ensures var init, last := ts[..|ts| - 1], ts[|ts| - 1];
            && DistinctOutputs(init)
            && if last == t then NoFieldLz(init)
               else OnlyFieldLz(init, t) && last.transformId != FIELD_LZ_ID
  {
    var init, last := ts[..|ts| - 1], ts[|ts| - 1];
    assert last in ts;
    if last == t {
      forall u | u in init ensures u.transformId != FIELD_LZ_ID {
        var i :| 0 <= i < |init| && init[i] == u;
        assert u in ts && Out(ts[i]) != Out(ts[|ts| - 1]);
      }
    } else {
      assert ts == init + [last];
    }
  }

  /** Records that write different slots are different, so a single FieldLZ is logged once. */
  lemma {:induction false} OnlyIsCounted(ts: seq<Transform>, t: Transform)
    requires OnlyFieldLz(ts, t) && DistinctOutputs(ts)
    ensures FieldLzOutputs(Log(ts)) == [EntryOf(t).output]
  {
    var init, last := ts[..|ts| - 1], ts[|ts| - 1];
    LogInit(ts);
    OnlyInInit(ts, t);
    hide Log, FieldLzOutputs, EntryOf, DistinctOutputs;
    if last == t {
      NoneCounted(init);
    } else {
      hide OnlyFieldLz;
      OnlyIsCounted(init, t);
    }
  }

  lemma {:induction false} ProducerExists(log: seq<LogEntry>, i: nat)
    requires i < |log|
    ensures Producer(log, log[i].output).Some?
    decreases |log|
  {
    if i < |log| - 1 { ProducerExists(log[..|log| - 1], i); }
  }

  /** Under the map's other rules, the log-based final check says what LegalFinal says. */
  lemma FinalChecks(p: Program)
    requires WellOrdered(p)
    ensures ValidFinal(Log(p.transforms), p.finalId) <==> LegalFinal(p)
  {
    if ValidFinal(Log(p.transforms), p.finalId) { ValidIsLegal(p); }
    if LegalFinal(p) { LegalIsValid(p); }
  }

  lemma ValidIsLegal(p: Program)
    requires WellOrdered(p) && ValidFinal(Log(p.transforms), p.finalId)
    ensures LegalFinal(p)
  {
    hide Log, Producer, FieldLzOutputs, WellOrdered;
    var ts, log := p.transforms, Log(p.transforms);
    var t := OneCounted(ts);
    ProducerFound(log, p.finalId);
    var e :| 0 <= e < |log| && log[e].output == p.finalId && log[e] == Producer(log, p.finalId).value;
    var f :| 0 <= f < |ts| && ts[f] == t;
    EntryOut(p, e);
    EntryOut(p, f);
    assert log[e] == EntryOf(ts[e]);
    assert FinishedBy(p, t, ts[e]);
  }

  lemma LegalIsValid(p: Program)
    requires WellOrdered(p) && LegalFinal(p)
    ensures ValidFinal(Log(p.transforms), p.finalId)
  {
    hide Log, Producer, FieldLzOutputs, WellOrdered;
    var ts, log := p.transforms, Log(p.transforms);
    var t, u :| FinishedBy(p, t, u);
    OutputsDiffer(p);
    OnlyIsCounted(ts, t);
    var i :| 0 <= i < |ts| && ts[i] == u;
    var f :| 0 <= f < |ts| && ts[f] == t;
    EntryOut(p, i);
    EntryOut(p, f);
    ProducerExists(log, i);
    ProducerFound(log, p.finalId);
    var e :| 0 <= e < |log| && log[e].output == p.finalId && log[e] == Producer(log, p.finalId).value;
    EntryOut(p, e);
    SameOutput(p, e, i);
  }

  lemma OutputsDiffer(p: Program)
    requires WellOrdered(p)
    ensures DistinctOutputs(p.transforms)
  {
    hide WellOrdered;
    forall i, j | 0 <= i < j < |p.transforms| ensures Out(p.transforms[i]) != Out(p.transforms[j]) {
      if Out(p.transforms[i]) == Out(p.transforms[j]) { SameOutput(p, i, j); }
    }
  }

  // ----- acceptance ---------------------------------------------------------------

  /** `values` are what the equations put in the final slot. */
  ghost predicate Yields(z: Codec, p: Program, v: Assignment, values: seq<u32>) {
    && Solves(z, p, v) && p.finalId < |v|
    && |v[p.finalId].data| == p.numElements * U32_WIDTH && values == UnpackU32s(v[p.finalId].data)
  }

  lemma AcceptedSolves(z: Codec, p: Program, values: seq<u32>) returns (v: Assignment)
    requires RunProgram(z, p) == Ok(values)
    ensures LegalGraph(p) && Yields(z, p, v, values)
  {
    hide ValidFinal, Step, StoreAll, RunAll, WellOrdered, Complete, LegalFinal, RecordEquation, StoredEquation;
    AcceptedIsComplete(z, p);
    FinalChecks(p);
    var slots := RunAll(z, p.numElements, Loaded(p).value, p.transforms).value;
    v := View(slots);
    RunSolves(z, p.numElements, Loaded(p).value, p.transforms, v);
    StoreSolves(EmptySlots(p.slotCount), p.stored, v);
  }

  lemma SolutionAccepted(z: Codec, p: Program, v: Assignment, values: seq<u32>)
    requires LegalGraph(p) && Yields(z, p, v, values)
    ensures RunProgram(z, p) == Ok(values)
  {
    hide ValidFinal, Step, StoreAll, RunAll, WellOrdered, LegalFinal, Solves, UnpackU32s;
    SolutionRuns(z, p, v, |p.transforms|);
    assert p.transforms[..|p.transforms|] == p.transforms;
    FinalChecks(p);
    RunTracks(z, p);
  }

  /** The reader accepts a program, with these values, exactly when its graph is legal and its
      equations have a solution with these values in the final slot. */
  lemma AcceptedExactlyWhen(z: Codec, p: Program, values: seq<u32>)
    ensures RunProgram(z, p) == Ok(values) <==> LegalGraph(p) && exists v :: Yields(z, p, v, values)
  {
    hide RunProgram, LegalGraph, Yields;
    if RunProgram(z, p) == Ok(values) {
      var v := AcceptedSolves(z, p, values);
    }
    if LegalGraph(p) && exists v :: Yields(z, p, v, values) {
      var v :| Yields(z, p, v, values);
      SolutionAccepted(z, p, v, values);
    }
  }

  /** The equations of a legal graph have at most one solution. */
  lemma SolutionIsUnique(z: Codec, p: Program, v: Assignment, w: Assignment)
    requires WellOrdered(p) && Complete(p) && Solves(z, p, v) && Solves(z, p, w)
    ensures v == w
  {
    hide Step, StoreAll, RunAll, WellOrdered, RecordEquation, StoredEquation;
    SolutionRuns(z, p, v, |p.transforms|);
    SolutionRuns(z, p, w, |p.transforms|);
    assert p.transforms[..|p.transforms|] == p.transforms;
    RunTracks(z, p);
  }

  // ----- the order of records -------------------------------------------------------

  lemma SameRecords(ts: seq<Transform>, us: seq<Transform>)
    requires multiset(ts) == multiset(us)
    ensures |ts| == |us| && forall t :: t in ts <==> t in us
  {
    assert |multiset(ts)| == |multiset(us)|;
    forall t ensures t in ts <==> t in us {
      assert t in ts <==> t in multiset(ts);
      assert t in us <==> t in multiset(us);
    }
  }

  lemma ReorderedComplete(p: Program, q: Program)
    requires q == p.(transforms := q.transforms) && multiset(p.transforms) == multiset(q.transforms)
    requires Complete(p)
    ensures Complete(q)
  {
    SameRecords(p.transforms, q.transforms);
    forall x: nat | x < p.slotCount ensures StoredAt(q, x) || WrittenBefore(q.transforms, |q.transforms|, x) {
      if !StoredAt(p, x) {
        var j :| 0 <= j < |p.transforms| && Out(p.transforms[j]) == x;
        assert p.transforms[j] in q.transforms;
        var i :| 0 <= i < |q.transforms| && q.transforms[i] == p.transforms[j];
      }
    }
    forall x: nat | x < p.slotCount && x != p.finalId ensures Consumed(q.transforms, x) {
      assert Consumed(p.transforms, x);
      var k :| 0 <= k < |p.transforms| && x in p.transforms[k].inputs;
      assert p.transforms[k] in q.transforms;
      var i :| 0 <= i < |q.transforms| && q.transforms[i] == p.transforms[k];
    }
  }

  /** The order of an accepted chunk's records is free: any order that still writes each slot
      before it is read is accepted and gives the same values. */
  lemma OrderIsFree(z: Codec, p: Program, q: Program, values: seq<u32>)
    requires RunProgram(z, p) == Ok(values)
    requires q == p.(transforms := q.transforms) && multiset(p.transforms) == multiset(q.transforms) && WellOrdered(q)
    ensures RunProgram(z, q) == Ok(values)
  {
    hide RunProgram, WellOrdered, Complete, RecordEquation, StoredEquation, UnpackU32s;
    var v := AcceptedSolves(z, p, values);
    SameRecords(p.transforms, q.transforms);
    ReorderedComplete(p, q);
    assert Solves(z, q, v);
    var t, u :| FinishedBy(p, t, u);
    assert FinishedBy(q, t, u);
    SolutionAccepted(z, q, v, values);
  }
}
