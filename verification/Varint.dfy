/** Minimal unsigned LEB128 (section 7.6 of DWARF Version 5): the printer, the
    parser, and the stateful reader of src/varint.rs. */
module Varint {
  import opened Basics

  const MAX_VARINT_BYTES: nat := 10

  /** The one encoding of a number: seven bits a byte, low bits first, the top bit
      of every byte but the last set. */
  function Leb(v: nat): (b: bytes)
    ensures b != []
  {
    if v < 128 then [v] else [v % 128 + 128] + Leb(v / 128)
  }

  predicate IsU64(v: nat) { v < U64_LIMIT }

  /** 128^k */
  function Pow128(k: nat): (p: nat)
    ensures p > 0
  {
    if k == 0 then 1 else 128 * Pow128(k - 1)
  }

  /** The values that still fit when `k` bytes of a 64-bit varint have been read: 2^(64 - 7k). */
  function Room(k: nat): (room: nat)
    requires k <= 9
    ensures if k == 9 then room == 2 else room >= 256
    decreases 9 - k
  {
    if k == 9 then 2 else 128 * Room(k + 1)
  }

  /** The seven payload bits of a byte. */
  function Payload(b: u8): (p: u8)
    ensures p < 128
  {
    if b >= 128 then b - 128 else b
  }

  /** Reads byte number `k` of a varint and everything after it. */
  function ParseFrom(s: bytes, k: nat): Result<(nat, bytes)>
    requires k < MAX_VARINT_BYTES
    decreases MAX_VARINT_BYTES - k
  {
    if s == [] then Err
    else if k == MAX_VARINT_BYTES - 1 && s[0] > 1 then Err  // more than 64 bits, or more than ten bytes
    else if s[0] >= 128 then
      var (v, rest) :- ParseFrom(s[1..], k + 1);
      Ok((Payload(s[0]) + 128 * v, rest))
    else if k > 0 && s[0] == 0 then Err
    else Ok((s[0], s[1..]))
  }

  function ParseVarint(s: bytes): Result<(nat, bytes)> {
    ParseFrom(s, 0)
  }

  // ----- the parser inverts the printer, in both directions -------------------

  lemma {:induction false} ParseFromPrinted(v: nat, rest: bytes, k: nat)
    requires k <= 9 && v < Room(k)
    requires k > 0 ==> v > 0
    ensures ParseFrom(Leb(v) + rest, k) == Ok((v, rest))
    decreases 9 - k
  {
    var s := Leb(v) + rest;
    if v < 128 {
      assert s[1..] == rest && Payload(v) == v;
    } else {
      var q := v / 128;
      assert v == 128 * q + v % 128;
      assert s[1..] == Leb(q) + rest;
      ParseFromPrinted(q, rest, k + 1);
    }
  }

  lemma LebStep(b: u8, v: nat)
    requires b >= 128 && v > 0
    ensures Leb(Payload(b) + 128 * v) == [b] + Leb(v)
  {
    DivMod(Payload(b), v);
  }

  lemma DivMod(p: nat, v: nat)
    requires p < 128
    ensures (p + 128 * v) / 128 == v && (p + 128 * v) % 128 == p
  {
  }

  lemma {:induction false} ParsedWasPrinted(s: bytes, k: nat)
    requires k <= 9
    requires ParseFrom(s, k).Ok?
    ensures var (v, rest) := ParseFrom(s, k).value;
            v < Room(k) && (k > 0 ==> v > 0) && s == Leb(v) + rest
    decreases 9 - k
  {
    assert s == [s[0]] + s[1..];
    if s[0] >= 128 {
      ParsedWasPrinted(s[1..], k + 1);
      var (v, rest) := ParseFrom(s[1..], k + 1).value;
      LebStep(s[0], v);
      assert [s[0]] + (Leb(v) + rest) == ([s[0]] + Leb(v)) + rest;
    }
  }

  lemma RoomIsU64()
    ensures Room(0) == U64_LIMIT
  {
    assert Room(8) == 0x100 && Room(7) == 0x8000 && Room(6) == 0x40_0000;
    assert Room(5) == 0x2000_0000 && Room(4) == 0x10_0000_0000 && Room(3) == 0x800_0000_0000;
  }

  /** Canonical form: the parser accepts exactly the printed u64 values, consumes
      exactly their encoding, and so no two byte strings read as the same number. */
  lemma VarintBijection(s: bytes, v: nat, rest: bytes)
    ensures ParseVarint(s) == Ok((v, rest)) <==> IsU64(v) && s == Leb(v) + rest
  {
    RoomIsU64();
    if ParseVarint(s) == Ok((v, rest)) {
      ParsedWasPrinted(s, 0);
    }
    if IsU64(v) && s == Leb(v) + rest {
      ParseFromPrinted(v, rest, 0);
    }
  }

  /** No encoding is a proper prefix of another, and equal encodings mean equal values. */
  lemma PrefixFree(v: u64, w: u64)
    requires Leb(v) <= Leb(w)
    ensures v == w
  {
    var tail := Leb(w)[|Leb(v)|..];
    assert Leb(w) == Leb(v) + tail && Leb(w) == Leb(w) + [];
    VarintBijection(Leb(w), v, tail);
    VarintBijection(Leb(w), w, []);
  }

  /** A u64 takes k bytes exactly when it lies in [128^(k-1), 128^k), with 0 taking one byte:
      the encoding is as short as seven bits a byte allow. */
  lemma {:induction false} LebLength(v: nat)
    ensures v < Pow128(|Leb(v)|)
    ensures v > 0 ==> Pow128(|Leb(v)| - 1) <= v
    ensures v == 0 ==> |Leb(v)| == 1
  {
    if v >= 128 {
      LebLength(v / 128);
      var n := |Leb(v / 128)|;
      assert Pow128(n + 1) == 128 * Pow128(n);
      assert Pow128(n) == 128 * Pow128(n - 1);
    } else {
      assert Pow128(1) == 128 * Pow128(0);
    }
  }

  /** What bytes say in base 128, low digit first, whatever their top bits. */
  function Digits(b: bytes): nat {
    if b == [] then 0 else b[0] % 128 + 128 * Digits(b[1..])
  }

  /** The encoding is the value in base 128, low digit first, with the top bit set on every
      byte but the last. */
  lemma {:induction false} LebDigits(v: nat)
    ensures Digits(Leb(v)) == v
    ensures forall i | 0 <= i < |Leb(v)| :: Leb(v)[i] >= 128 <==> i < |Leb(v)| - 1
  {
    if v >= 128 {
      LebDigits(v / 128);
      assert Leb(v)[1..] == Leb(v / 128);
    } else {
      assert Digits([v]) == v % 128 + 128 * Digits([]);
    }
  }

  lemma {:induction false} Pow128Monotone(a: nat, b: nat)
    requires a <= b
    ensures Pow128(a) <= Pow128(b)
    decreases b
  {
    if a < b { Pow128Monotone(a, b - 1); }
  }

  lemma TenBytesAreEnough()
    ensures Pow128(10) > U64_LIMIT
  {
    assert Pow128(5) == 128 * 128 * 128 * 128 * 128;
    assert Pow128(10) == 128 * 128 * 128 * 128 * 128 * Pow128(5);
  }

  lemma U64TakesAtMostTenBytes(v: u64)
    ensures 1 <= |Leb(v)| <= MAX_VARINT_BYTES
  {
    LebLength(v);
    if |Leb(v)| > MAX_VARINT_BYTES {
      Pow128Monotone(10, |Leb(v)| - 1);
      TenBytesAreEnough();
    }
  }

  // ----- the writer -----------------------------------------------------------

  method WriteU64(value: u64, out: bytes) returns (r: bytes)
    ensures r == out + Leb(value)
  {
    var v: nat := value;
    r := out;
    while v >= 128
      invariant r + Leb(v) == out + Leb(value)
    {
      assert Leb(v) == [v % 128 + 128] + Leb(v / 128);
      r := r + [v % 128 + 128];
      v := v / 128;
    }
    r := r + [v];
  }

  // ----- the reader -----------------------------------------------------------

  /** src/varint.rs:39-94. Positions are mathematical integers, so `pos + len` cannot wrap. */
  class Reader {
    const input: bytes
    var pos: nat

    constructor (input: bytes)
      ensures Valid() && this.input == input && pos == 0 && Rest() == input
    {
      this.input := input;
      pos := 0;
    }

    ghost predicate Valid() reads this { pos <= |input| }

    /** The bytes not read yet. */
    function Rest(): bytes
      requires Valid()
      reads this
    {
      input[pos..]
    }

    method ReadU8() returns (r: Result<u8>)
      requires Valid()
      modifies this
      ensures Valid()
      ensures if old(Rest()) == [] then r.Err? && pos == old(pos)
              else r == Ok(old(Rest())[0]) && Rest() == old(Rest())[1..]
    {
      if pos >= |input| { return Err; }
      r := Ok(input[pos]);
      pos := pos + 1;
    }

    method ReadExact(len: nat) returns (r: Result<bytes>)
      requires Valid()
      modifies this
      ensures Valid()
      ensures r == ParseExact(old(Rest()), len)
      ensures if r.Err? then pos == old(pos) else old(Rest()) == r.value + Rest()
    {
      if pos + len > |input| { return Err; }
      r := Ok(input[pos..pos + len]);
      assert input[pos..][..len] == input[pos..pos + len];
      pos := pos + len;
    }

    method ReadU64() returns (r: Result<u64>)
      requires Valid()
      modifies this
      ensures Valid()
      ensures match ParseVarint(old(Rest()))
              case Err => r.Err?
              case Ok((v, rest)) => r == Ok(v) && Rest() == rest
    {
      hide ParseVarint, Pow128, Plus, Resumes;
      var value: nat := 0;
      ghost var start := Rest();
      Begin(start);
      for k := 0 to MAX_VARINT_BYTES
        invariant Valid()
        invariant if k < 10 then Resumes(start, Rest(), k, value) else ParseVarint(start).Err?
      {
        ghost var before := Rest();
        var next := ReadU8();
        if next.Err? {
          Stuck(start, before, k, value);
          return Err;
        }
        var byte := next.value;
        var payload := Payload(byte);
        if k == MAX_VARINT_BYTES - 1 && payload > 1 {
          Stuck(start, before, k, value);
          return Err;
        }
        if byte >= 128 {
          Continue(start, before, k, value);
          value := Plus(value, payload, k);
        } else {
          Finish(start, before, k, value);
          value := Plus(value, payload, k);
          if k > 0 && value < Pow128(k) { return Err; }
          return Ok(value);
        }
      }
      return Err;
    }

    predicate IsEof()
      requires Valid()
      reads this
    {
      pos == |input|
    }
  }

  /** src/varint.rs:82: the payload of byte `k` shifted into place above the bits read so far. */
  function Plus(value: nat, payload: nat, k: nat): nat {
    value + payload * Pow128(k)
  }

  /** What is left of parsing `start` when `k` bytes, worth `value`, have been read. */
  ghost predicate Resumes(start: bytes, rest: bytes, k: nat, value: nat)
    requires k <= 9
  {
    && value < Pow128(k)
    && match ParseFrom(rest, k)
       case Err => ParseVarint(start).Err?
       case Ok((v, tail)) => ParseVarint(start) == Ok((Plus(value, v, k), tail))
  }

  lemma Begin(start: bytes)
    ensures Resumes(start, start, 0, 0)
  {
    assert Pow128(0) == 1;
  }

  lemma Stuck(start: bytes, rest: bytes, k: nat, value: nat)
    requires k <= 9 && Resumes(start, rest, k, value)
    requires rest == [] || (k == 9 && Payload(rest[0]) > 1)
    ensures ParseVarint(start).Err?
  {
  }

  lemma Digit(value: nat, p: nat, v: nat, k: nat)
    requires p < 128 && value < Pow128(k)
    ensures Plus(value, p + 128 * v, k) == Plus(Plus(value, p, k), v, k + 1)
    ensures Plus(value, p, k) < Pow128(k + 1)
  {
    var q := Pow128(k);
    assert Pow128(k + 1) == 128 * q;
    assert (p + 128 * v) * q == p * q + v * (128 * q);
    assert p * q <= 127 * q;
  }

  lemma Continue(start: bytes, rest: bytes, k: nat, value: nat)
    requires k <= 9 && rest != [] && rest[0] >= 128
    requires k == 9 ==> Payload(rest[0]) <= 1
    requires Resumes(start, rest, k, value)
    ensures if k == 9 then ParseVarint(start).Err?
            else Resumes(start, rest[1..], k + 1, Plus(value, Payload(rest[0]), k))
  {
    hide Plus;
    var p := Payload(rest[0]);
    Digit(value, p, 0, k);
    if k < 9 && ParseFrom(rest[1..], k + 1).Ok? {
      Digit(value, p, ParseFrom(rest[1..], k + 1).value.0, k);
    }
  }

  /** A byte without the continuation bit ends the number: a zero one, past the first, is rejected. */
  lemma Finish(start: bytes, rest: bytes, k: nat, value: nat)
    requires k <= 9 && rest != [] && rest[0] < 128
    requires k == 9 ==> rest[0] <= 1
    requires Resumes(start, rest, k, value)
    ensures var total := Plus(value, Payload(rest[0]), k);
            if k > 0 && total < Pow128(k) then ParseVarint(start).Err?
            else ParseVarint(start) == Ok((total, rest[1..])) && IsU64(total)
  {
    var p := rest[0];
    if k > 0 && p == 0 {
      assert ParseFrom(rest, k) == Err;
      assert Plus(value, p, k) == value;
    } else {
      assert ParseFrom(rest, k) == Ok((p, rest[1..]));
      if p >= 1 { Scale(p, Pow128(k)); }
      VarintIsU64(start);
    }
  }

  lemma Scale(p: nat, q: nat)
    requires p >= 1
    ensures p * q >= q
  {
  }

  lemma VarintIsU64(s: bytes)
    ensures ParseVarint(s).Ok? ==> IsU64(ParseVarint(s).value.0)
  {
    if ParseVarint(s).Ok? {
      VarintBijection(s, ParseVarint(s).value.0, ParseVarint(s).value.1);
    }
  }

  /** The first `len` bytes, if there are that many. */
  function ParseExact(s: bytes, len: nat): Result<bytes> {
    if len <= |s| then Ok(s[..len]) else Err
  }

  /** src/varint.rs:30-37: a header that holds one number and nothing else. */
  function ParseSingle(header: bytes): Result<nat> {
    var (v, rest) :- ParseVarint(header);
    if rest == [] then Ok(v) else Err
  }

  method ReadSingle(header: bytes) returns (r: Result<nat>)
    ensures r == ParseSingle(header)
  {
    var reader := new Reader(header);
    var value :- reader.ReadU64();
    if !reader.IsEof() { return Err; }
    return Ok(value);
  }

  /** A header is read as a number exactly when it is that number's encoding. */
  lemma SingleExactlyWhen(header: bytes, v: nat)
    ensures ParseSingle(header) == Ok(v) <==> IsU64(v) && header == Leb(v)
  {
    hide ParseVarint, Leb;
    assert Leb(v) + [] == Leb(v);
    VarintBijection(header, v, []);
    if ParseSingle(header) == Ok(v) {
      var (w, rest) := ParseVarint(header).value;
      assert w == v && rest == [];
    }
  }

  lemma SingleInverse(v: u64)
    ensures ParseSingle(Leb(v)) == Ok(v)
  {
    assert Leb(v) == Leb(v) + [];
    VarintBijection(Leb(v), v, []);
  }
}
