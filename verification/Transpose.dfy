/** The four-lane byte transpose of src/transpose.rs. */
module Transpose {
  import opened Basics

  /** Lane `j` holds byte `j` of every value. */
  datatype Lanes = Lanes(lane0: bytes, lane1: bytes, lane2: bytes, lane3: bytes) {
    function Lane(j: nat): bytes
      requires j < 4
    {
      if j == 0 then lane0 else if j == 1 then lane1 else if j == 2 then lane2 else lane3
    }

    predicate EqualLengths() {
      |lane0| == |lane1| == |lane2| == |lane3|
    }
  }

  function LaneOf(b: bytes, j: nat): (lane: bytes)
    requires j < 4
    ensures |lane| == |b| / 4
  {
    if |b| < 4 then [] else [b[j]] + LaneOf(b[4..], j)
  }

  function Split(b: bytes): Lanes {
    Lanes(LaneOf(b, 0), LaneOf(b, 1), LaneOf(b, 2), LaneOf(b, 3))
  }

  function Join(l: Lanes): (b: bytes)
    requires l.EqualLengths()
    ensures |b| == 4 * |l.lane0|
    decreases |l.lane0|
  {
    if l.lane0 == [] then []
    else
      [l.lane0[0], l.lane1[0], l.lane2[0], l.lane3[0]]
      + Join(Lanes(l.lane0[1..], l.lane1[1..], l.lane2[1..], l.lane3[1..]))
  }

  /** Byte `4 i + j` of the stream is byte `i` of lane `j`. */
  lemma {:induction false} LaneIndex(b: bytes, i: nat, j: nat)
    requires j < 4 && 4 * i + 3 < |b|
    ensures LaneOf(b, j)[i] == b[4 * i + j]
  {
    if i > 0 {
      LaneIndex(b[4..], i - 1, j);
      assert b[4..][4 * (i - 1) + j] == b[4 * i + j];
    }
  }

  /** Splitting then joining restores a stream of whole values. */
  lemma {:induction false} JoinSplit(b: bytes)
    requires |b| % 4 == 0
    ensures Join(Split(b)) == b
  {
    if b != [] {
      var s, t := Split(b), Split(b[4..]);
      assert t.lane0 == s.lane0[1..] && t.lane1 == s.lane1[1..] && t.lane2 == s.lane2[1..] && t.lane3 == s.lane3[1..];
      JoinSplit(b[4..]);
      assert b == [b[0], b[1], b[2], b[3]] + b[4..];
    }
  }

  /** Joining then splitting restores four lanes of one length. */
  lemma {:induction false} SplitJoin(l: Lanes)
    requires l.EqualLengths()
    ensures Split(Join(l)) == l
    decreases |l.lane0|
  {
    if l.lane0 != [] {
      SplitJoin(Lanes(l.lane0[1..], l.lane1[1..], l.lane2[1..], l.lane3[1..]));
      assert Join(l)[4..] == Join(Lanes(l.lane0[1..], l.lane1[1..], l.lane2[1..], l.lane3[1..]));
    } else {
      assert l == Lanes([], [], [], []);
    }
  }

  method EncodeSplit4(b: bytes) returns (l: Lanes)
    requires |b| % 4 == 0
    ensures l == Split(b)
  {
    hide LaneOf;
    var l0, l1, l2, l3 := [], [], [], [];
    assert b[0..] == b;
    for i := 0 to |b| / 4
      invariant l0 + LaneOf(b[4 * i..], 0) == LaneOf(b, 0)
      invariant l1 + LaneOf(b[4 * i..], 1) == LaneOf(b, 1)
      invariant l2 + LaneOf(b[4 * i..], 2) == LaneOf(b, 2)
      invariant l3 + LaneOf(b[4 * i..], 3) == LaneOf(b, 3)
    {
      LaneNext(b, i, 0);
      LaneNext(b, i, 1);
      LaneNext(b, i, 2);
      LaneNext(b, i, 3);
      l0, l1, l2, l3 := l0 + [b[4 * i]], l1 + [b[4 * i + 1]], l2 + [b[4 * i + 2]], l3 + [b[4 * i + 3]];
    }
    NoMoreLanes(b);
    return Lanes(l0, l1, l2, l3);
  }

  lemma LaneNext(b: bytes, i: nat, j: nat)
    requires j < 4 && 4 * i + 4 <= |b|
    ensures LaneOf(b[4 * i..], j) == [b[4 * i + j]] + LaneOf(b[4 * (i + 1)..], j)
  {
    assert b[4 * i..][4..] == b[4 * (i + 1)..];
  }

  lemma NoMoreLanes(b: bytes)
    requires |b| % 4 == 0
    ensures forall j: nat | j < 4 :: LaneOf(b[4 * (|b| / 4)..], j) == []
  {
  }

  /** What decoding promises: equal lanes, no longer than the chunk, joined. */
  function DecodeSpec(l: Lanes, n: nat): Result<bytes> {
    if !l.EqualLengths() || |l.lane0| > n then Err else Ok(Join(l))
  }

  lemma {:induction false} JoinedAt(l: Lanes, i: nat)
    requires l.EqualLengths() && i < |l.lane0|
    ensures Join(l)[4 * i..4 * i + 4] == [l.lane0[i], l.lane1[i], l.lane2[i], l.lane3[i]]
    decreases i
  {
    if i > 0 {
      var t := Lanes(l.lane0[1..], l.lane1[1..], l.lane2[1..], l.lane3[1..]);
      JoinedAt(t, i - 1);
      assert Join(l)[4..] == Join(t);
      assert Join(l)[4 * i..4 * i + 4] == Join(t)[4 * (i - 1)..4 * (i - 1) + 4];
    }
  }

  /** Value `i` of the bytes is byte `i` of each lane, lane 0 first. */
  predicate Interleaves(b: bytes, l: Lanes, i: nat)
    requires l.EqualLengths() && |b| == 4 * |l.lane0| && i < |l.lane0|
  {
    b[4 * i..4 * i + 4] == [l.lane0[i], l.lane1[i], l.lane2[i], l.lane3[i]]
  }

  lemma {:induction false} InterleavedIsJoin(b: bytes, l: Lanes)
    requires l.EqualLengths() && |b| == 4 * |l.lane0| && forall i | 0 <= i < |l.lane0| :: Interleaves(b, l, i)
    ensures b == Join(l)
  {
    hide Join;
    forall k | 0 <= k < |b| ensures b[k] == Join(l)[k] {
      var i := k / 4;
      JoinedAt(l, i);
      assert Interleaves(b, l, i);
      assert b[k] == b[4 * i..4 * i + 4][k - 4 * i] && Join(l)[k] == Join(l)[4 * i..4 * i + 4][k - 4 * i];
    }
  }

  /** What decoding accepts and returns: four lanes of one length, no longer than the chunk, byte
      by byte in lane order. */
  lemma DecodesExactlyWhen(l: Lanes, n: nat, b: bytes)
    ensures DecodeSpec(l, n) == Ok(b) <==>
            && l.EqualLengths() && |l.lane0| <= n && |b| == 4 * |l.lane0|
            && forall i | 0 <= i < |l.lane0| :: Interleaves(b, l, i)
  {
    hide Join;
    if l.EqualLengths() {
      forall i | 0 <= i < |l.lane0| ensures Interleaves(Join(l), l, i) { JoinedAt(l, i); }
      if |b| == 4 * |l.lane0| && forall i | 0 <= i < |l.lane0| :: Interleaves(b, l, i) {
        InterleavedIsJoin(b, l);
      }
    }
  }

  function Drop(l: Lanes, i: nat): (t: Lanes)
    requires l.EqualLengths() && i <= |l.lane0|
    ensures t.EqualLengths() && |t.lane0| == |l.lane0| - i
  {
    Lanes(l.lane0[i..], l.lane1[i..], l.lane2[i..], l.lane3[i..])
  }

  lemma JoinNext(l: Lanes, i: nat)
    requires l.EqualLengths() && i < |l.lane0|
    ensures Join(Drop(l, i)) == [l.lane0[i], l.lane1[i], l.lane2[i], l.lane3[i]] + Join(Drop(l, i + 1))
  {
    assert l.lane0[i..][1..] == l.lane0[i + 1..] && l.lane1[i..][1..] == l.lane1[i + 1..];
    assert l.lane2[i..][1..] == l.lane2[i + 1..] && l.lane3[i..][1..] == l.lane3[i + 1..];
  }

  lemma JoinEnds(l: Lanes)
    requires l.EqualLengths()
    ensures Drop(l, 0) == l && Join(Drop(l, |l.lane0|)) == []
  {
  }

  method DecodeSplit4(l: Lanes, n: nat) returns (r: Result<bytes>)
    ensures r == DecodeSpec(l, n)
  {
    var count := |l.lane0|;
    if |l.lane1| != count || |l.lane2| != count || |l.lane3| != count { return Err; }
    if count > n { return Err; }
    hide Join, Drop;
    var out: bytes := [];
    JoinEnds(l);
    for i := 0 to count
      invariant out + Join(Drop(l, i)) == Join(l)
    {
      JoinNext(l, i);
      out := out + [l.lane0[i], l.lane1[i], l.lane2[i], l.lane3[i]];
    }
    assert out + [] == out;
    return Ok(out);
  }
}
