/** The streaming SHA-1 of the disk KV store (kv_store.c), against the whole-message definition of RFC 3174. */
module Sha1 {
  import opened Words

  datatype State = State(a: bv32, b: bv32, c: bv32, d: bv32, e: bv32)

  const INIT := State(0x67452301, 0xefcdab89, 0x98badcfe, 0x10325476, 0xc3d2e1f0)

  // ---------- Specification: RFC 3174 ----------

  function Rotl1(v: bv32): bv32 {
    (v << 1) | (v >> 31)
  }

  function Rotl5(v: bv32): bv32 {
    (v << 5) | (v >> 27)
  }

  function Rotl30(v: bv32): bv32 {
    (v << 30) | (v >> 2)
  }

  function BeWord(b0: bv8, b1: bv8, b2: bv8, b3: bv8): bv32 {
    (b0 as bv32 << 24) | (b1 as bv32 << 16) | (b2 as bv32 << 8) | b3 as bv32
  }

  /** Word t of the message schedule. */
  function Schedule(block: seq<bv8>, t: nat): bv32
    requires |block| == 64 && t < 80
  {
    if t < 16 then BeWord(block[4 * t], block[4 * t + 1], block[4 * t + 2], block[4 * t + 3])
    else Mix(Schedule(block, t - 3), Schedule(block, t - 8), Schedule(block, t - 14), Schedule(block, t - 16))
  }

  function Mix(w3: bv32, w8: bv32, w14: bv32, w16: bv32): bv32 {
    Rotl1(w3 ^ w8 ^ w14 ^ w16)
  }

  function Choice(t: nat, b: bv32, c: bv32, d: bv32): bv32 {
    if t < 20 then Choose(b, c, d)
    else if t < 40 then Parity(b, c, d)
    else if t < 60 then Majority(b, c, d)
    else Parity(b, c, d)
  }

  function Choose(b: bv32, c: bv32, d: bv32): bv32 {
    (b & c) | ((!b) & d)
  }

  function Parity(b: bv32, c: bv32, d: bv32): bv32 {
    b ^ c ^ d
  }

  function Majority(b: bv32, c: bv32, d: bv32): bv32 {
    (b & c) | (b & d) | (c & d)
  }

  function Constant(t: nat): bv32 {
    if t < 20 then 0x5a827999 else if t < 40 then 0x6ed9eba1 else if t < 60 then 0x8f1bbcdc else 0xca62c1d6
  }

  function Plus(a: bv32, f: bv32, e: bv32, k: bv32, w: bv32): bv32 {
    a + f + e + k + w
  }

  function Round(s: State, t: nat, w: bv32): State {
    State(Plus(Rotl5(s.a), Choice(t, s.b, s.c, s.d), s.e, Constant(t), w), s.a, Rotl30(s.b), s.c, s.d)
  }

  function Rounds(s: State, block: seq<bv8>, t: nat): State
    requires |block| == 64 && t <= 80
  {
    if t == 0 then s else Round(Rounds(s, block, t - 1), t - 1, Schedule(block, t - 1))
  }

  function Sum(s: State, r: State): State {
    State(Add(s.a, r.a), Add(s.b, r.b), Add(s.c, r.c), Add(s.d, r.d), Add(s.e, r.e))
  }

  function Add(x: bv32, y: bv32): bv32 {
    x + y
  }

  function Compress(s: State, block: seq<bv8>): State
    requires |block| == 64
  {
    Sum(s, Rounds(s, block, 80))
  }

  /** The state after the first k blocks of m. */
  function Absorb(m: seq<bv8>, k: nat): State
    requires 64 * k <= |m|
  {
    if k == 0 then INIT else Compress(Absorb(m, k - 1), m[64 * (k - 1)..64 * k])
  }

  /** How many zero bytes follow the bit that section 4 of RFC 3174 appends to a message of n bytes. */
  function ZeroCount(n: nat): (k: nat)
    ensures k < 64 && (n + 1 + k) % 64 == 56
  {
    (55 - n) % 64
  }

  /** No fewer zeros do. */
  lemma {:induction false} ZeroCountLeast(n: nat, k: nat)
    requires k <= ZeroCount(n)
    ensures (n + 1 + k) % 64 == 56 <==> k == ZeroCount(n)
  {
  }

  function Zeros(k: nat): (z: seq<bv8>)
    ensures |z| == k
  {
    seq(k, _ => 0)
  }

  /** A 64-bit count, most significant byte first. */
  function CountBytes(bits: u64): (b: seq<bv8>)
    ensures |b| == 8
  {
    seq(8, i requires 0 <= i < 8 => Digit(bits, i) as bv8)
  }

  /** Digit i of a 64-bit number to base 256. */
  function Digit(bits: u64, i: nat): (d: nat)
    requires i < 8
    ensures d < 0x100
  {
    bits / Pow256(7 - i) % 0x100
  }

  function Pow256(i: nat): (p: int)
    ensures p > 0
  {
    if i == 0 then 1 else 0x100 * Pow256(i - 1)
  }

  /** The padding of section 4: one 1 bit, zeros, and the bit length.  The source reduces the length modulo 2^64,
      which changes nothing for the messages RFC 3174 admits. */
  function Padded(m: seq<bv8>): (p: seq<bv8>)
    ensures |p| % 64 == 0
  {
    m + [0x80] + Zeros(ZeroCount(|m|)) + CountBytes(|m| * 8 % U64_LIMIT)
  }

  function WordBytes(v: bv32): seq<bv8> {
    [(v >> 24) as bv8, ((v >> 16) & 0xff) as bv8, ((v >> 8) & 0xff) as bv8, (v & 0xff) as bv8]
  }

  function Output(s: State): seq<bv8> {
    WordBytes(s.a) + WordBytes(s.b) + WordBytes(s.c) + WordBytes(s.d) + WordBytes(s.e)
  }

  function Digest(m: seq<bv8>): seq<bv8> {
    Output(Absorb(Padded(m), |Padded(m)| / 64))
  }

  // ---------- What the pieces of the definition are ----------

  lemma {:induction false} RotationsAre(v: bv32)
    ensures Rotl1(v) == v.RotateLeft(1) && Rotl5(v) == v.RotateLeft(5) && Rotl30(v) == v.RotateLeft(30)
  {
  }

  /** f has c's bits where b has a one, and d's where b has a zero. */
  predicate Chosen(f: bv32, b: bv32, c: bv32, d: bv32) {
    (f ^ c) & b == 0 && (f ^ d) & !b == 0
  }

  /** Wherever two of the three agree, f agrees with them. */
  predicate Agreed(f: bv32, b: bv32, c: bv32, d: bv32) {
    (f ^ b) & !(b ^ c) == 0 && (f ^ b) & !(b ^ d) == 0 && (f ^ c) & !(c ^ d) == 0
  }

  /** Every bit occurs an even number of times. */
  predicate Even(f: bv32, b: bv32, c: bv32, d: bv32) {
    f ^ b ^ c ^ d == 0
  }

  lemma {:induction false} ChooseIs(b: bv32, c: bv32, d: bv32)
    ensures Chosen(Choose(b, c, d), b, c, d)
  {
    hide Choose;
    OnesChoose(b, c, d);
    ZerosChoose(b, c, d);
  }

  lemma {:induction false} OnesChoose(b: bv32, c: bv32, d: bv32)
    ensures (Choose(b, c, d) ^ c) & b == 0
  {
  }

  lemma {:induction false} ZerosChoose(b: bv32, c: bv32, d: bv32)
    ensures (Choose(b, c, d) ^ d) & !b == 0
  {
  }

  lemma {:induction false} MajorityIs(b: bv32, c: bv32, d: bv32)
    ensures Agreed(Majority(b, c, d), b, c, d)
  {
  }

  lemma {:induction false} ParityIs(b: bv32, c: bv32, d: bv32)
    ensures Even(Parity(b, c, d), b, c, d)
  {
  }

  /** In the first twenty rounds b chooses between c and d, in the third twenty the majority decides, in the others
      the parity. */
  lemma {:induction false} ChoiceIs(t: nat, b: bv32, c: bv32, d: bv32)
    ensures var f := Choice(t, b, c, d);
      if t < 20 then Chosen(f, b, c, d) else if 40 <= t < 60 then Agreed(f, b, c, d) else Even(f, b, c, d)
  {
    hide Choose, Majority, Parity, Chosen, Agreed, Even;
    ChooseIs(b, c, d);
    MajorityIs(b, c, d);
    ParityIs(b, c, d);
  }

  /** The four constants are the square roots of 2, 3, 5 and 10, as multiples of 2^-30 rounded down. */
  lemma {:induction false} ConstantIsRoot(t: nat)
    ensures var n := if t < 20 then 2 else if t < 40 then 3 else if t < 60 then 5 else 10;
      var k := Constant(t) as int;
      k * k <= n * 0x1000_0000_0000_0000 < (k + 1) * (k + 1)
  {
  }

  /** Words are read and written with the most significant byte first. */
  lemma {:induction false} WordsAreBigEndian(b0: bv8, b1: bv8, b2: bv8, b3: bv8)
    ensures var v := BeWord(b0, b1, b2, b3);
      && (v >> 24) as bv8 == b0 && ((v >> 16) & 0xff) as bv8 == b1 && ((v >> 8) & 0xff) as bv8 == b2 && (v & 0xff) as bv8 == b3
      && WordBytes(v) == [b0, b1, b2, b3]
  {
  }

  /** The number that the first n digits make. */
  function DigitsValue(bits: u64, n: nat): nat
    requires n <= 8
  {
    if n == 0 then 0 else 0x100 * DigitsValue(bits, n - 1) + Digit(bits, n - 1)
  }

  /** The eight bytes at the end of the padding are the bit count, most significant first. */
  lemma {:induction false} CountIsDigits(bits: u64)
    ensures DigitsValue(bits, 8) == bits
  {
    hide DigitsValue;
    DigitsPrefix(bits, 8);
    NoDigits();
  }

  lemma {:induction false} NoDigits()
    ensures Pow256(0) == 1
  {
  }

  lemma {:induction false} DigitsPrefix(bits: u64, i: nat)
    requires i <= 8
    ensures DigitsValue(bits, i) == bits / Pow256(8 - i)
  {
    if i == 0 {
      PowOfEight();
    } else {
      DigitsPrefix(bits, i - 1);
      NestedDivision(bits, Pow256(8 - i));
    }
  }

  lemma {:induction false} PowOfEight()
    ensures Pow256(8) == U64_LIMIT
  {
    assert Pow256(4) == 0x1_0000_0000;
  }

  lemma {:induction false} NestedDivision(x: nat, p: nat)
    requires 0 < p
    ensures x / (0x100 * p) == x / p / 0x100
  {
    var q, r := x / p, x % p;
    assert x == p * q + r;
    assert q == 0x100 * (q / 0x100) + q % 0x100;
    assert x == (0x100 * p) * (q / 0x100) + (p * (q % 0x100) + r);
    MulMono(q % 0x100, 0xff, p);
    QuotientIs(x, 0x100 * p, q / 0x100, p * (q % 0x100) + r);
  }

  lemma {:induction false} QuotientIs(x: nat, d: nat, q: nat, r: nat)
    requires 0 < d && x == d * q + r && r < d
    ensures x / d == q
  {
    var k := x / d;
    assert x == d * k + x % d;
    assert d * (q - k) == x % d - r;
    if q < k {
      MulMono(1, k - q, d);
    } else if k < q {
      MulMono(1, q - k, d);
    }
  }

  /** Later bytes do not change what earlier blocks gave. */
  lemma {:induction false} AbsorbPrefix(m: seq<bv8>, rest: seq<bv8>, k: nat)
    requires 64 * k <= |m|
    ensures Absorb(m + rest, k) == Absorb(m, k)
  {
    hide Compress;
    if k != 0 {
      AbsorbPrefix(m, rest, k - 1);
      assert (m + rest)[64 * (k - 1)..64 * k] == m[64 * (k - 1)..64 * k];
    }
  }

  // ---------- The implementation ----------

  /** The two loops that expand a block into 80 words. */
  method Expand(block: seq<bv8>) returns (w: array<bv32>)
    requires |block| == 64
    ensures fresh(w) && w.Length == 80 && forall k :: 0 <= k < 80 ==> w[k] == Schedule(block, k)
  {
    hide BeWord, Mix;
    w := new bv32[80];
    for i := 0 to 16
      invariant forall k :: 0 <= k < i ==> w[k] == Schedule(block, k)
    {
      w[i] := BeWord(block[i * 4], block[i * 4 + 1], block[i * 4 + 2], block[i * 4 + 3]);
    }
    for i := 16 to 80
      invariant forall k :: 0 <= k < i ==> w[k] == Schedule(block, k)
    {
      w[i] := Mix(w[i - 3], w[i - 8], w[i - 14], w[i - 16]);
    }
  }

  method Transform(s: State, block: seq<bv8>) returns (r: State)
    requires |block| == 64
    ensures r == Compress(s, block)
  {
    hide Round, Sum, Schedule;
    var w := Expand(block);
    var v := s;
    for i := 0 to 80
      invariant forall k :: 0 <= k < 80 ==> w[k] == Schedule(block, k)
      invariant v == Rounds(s, block, i)
    {
      v := Step(v, i, w[i]);
    }
    r := AddStates(s, v);
  }

  method AddStates(s: State, v: State) returns (r: State)
    ensures r == Sum(s, v)
  {
    hide Add;
    var a := AddWords(s.a, v.a);
    var b := AddWords(s.b, v.b);
    var c := AddWords(s.c, v.c);
    var d := AddWords(s.d, v.d);
    var e := AddWords(s.e, v.e);
    r := State(a, b, c, d, e);
  }

  method AddWords(x: bv32, y: bv32) returns (r: bv32)
    ensures r == Add(x, y)
  {
    r := x + y;
  }

  method AddAll(a: bv32, f: bv32, e: bv32, k: bv32, w: bv32) returns (r: bv32)
    ensures r == Plus(a, f, e, k, w)
  {
    r := a + f + e + k + w;
  }

  /** The branches on the round number. */
  method Select(i: nat, b: bv32, c: bv32, d: bv32) returns (f: bv32, k: bv32)
    ensures f == Choice(i, b, c, d) && k == Constant(i)
  {
    hide Choose, Majority, Parity;
    if i < 20 {
      f, k := Choose(b, c, d), 0x5a827999;
    } else if i < 40 {
      f, k := Parity(b, c, d), 0x6ed9eba1;
    } else if i < 60 {
      f, k := Majority(b, c, d), 0x8f1bbcdc;
    } else {
      f, k := Parity(b, c, d), 0xca62c1d6;
    }
  }

  /** One pass of the loop body: the five variables move along. */
  method Step(s: State, i: nat, w: bv32) returns (r: State)
    ensures r == Round(s, i, w)
  {
    hide Rotl5, Rotl30, Choice, Constant, Plus;
    var a, b, c, d, e := s.a, s.b, s.c, s.d, s.e;
    var f, k := Select(i, b, c, d);
    var tmp := AddAll(Rotl5(a), f, e, k, w);
    e := d;
    d := c;
    c := Rotl30(b);
    b := a;
    a := tmp;
    r := State(a, b, c, d, e);
  }

  class Context {
    var h: State
    var bytes: u64
    const block: array<bv8>
    var used: nat
    /** Every byte given to Update so far. */
    ghost var message: seq<bv8>

    /** The chaining state and the buffered bytes are functions of the message. */
    ghost predicate Streaming()
      reads this`h, this`used, this`message, block
    {
      && block.Length == 64 && used == |message| % 64
      && h == Absorb(message, |message| / 64)
      && block[..used] == message[|message| - used..]
    }

    ghost predicate Valid()
      reads this, block
    {
      Streaming() && bytes == |message| % U64_LIMIT
    }

    constructor ()
      ensures Valid() && message == [] && fresh(block)
    {
      h, bytes, used, message := INIT, 0, 0, [];
      block := new bv8[64];
    }

    method Copy(part: seq<bv8>)
      requires block.Length == 64 && used + |part| <= 64
      modifies block
      ensures block[..used + |part|] == old(block[..used]) + part
    {
      forall i | 0 <= i < |part| { block[used + i] := part[i]; }
    }

    /** One copy into the block buffer, and the transform when that fills it. */
    method Buffer(part: seq<bv8>)
      requires Streaming() && 0 < |part| <= 64 - used
      modifies this`h, this`used, this`message, block
      ensures Streaming() && message == old(message) + part
    {
      hide Compress, Absorb;
      ghost var k, u, m := |message| / 64, used, message + part;
      AbsorbPrefix(message, part, k);
      Blocks(message, part, k, u);
      Copy(part);
      used := used + |part|;
      message := m;
      if used == 64 {
        assert block[..64] == block[..];
        h := Transform(h, block[..]);
        AbsorbNext(m, k);
        used := 0;
      }
    }

    /** Any split of a message over calls leaves the same context as one call. */
    method Update(p: seq<bv8>)
      requires Valid() && |p| < U64_LIMIT
      modifies this, block
      ensures Valid() && message == old(message) + p
    {
      hide Streaming;
      ghost var count := (|message| + |p|) % U64_LIMIT;
      ByteCount(|message|, |p|);
      bytes := (bytes + |p|) % U64_LIMIT;
      var at := 0;
      while at < |p|
        invariant at <= |p| && Streaming() && message == old(message) + p[..at]
        invariant bytes == count
      {
        UsedIsRemainder();
        var n := 64 - used;
        if n > |p| - at { n := |p| - at; }
        Buffer(p[at..at + n]);
        assert p[..at] + p[at..at + n] == p[..at + n];
        at := at + n;
      }
      assert p[..at] == p;
    }

    lemma {:induction false} UsedIsRemainder()
      requires Streaming()
      ensures used == |message| % 64
    {
    }

    lemma {:induction false} StateIsAbsorbed()
      requires Streaming()
      ensures h == Absorb(message, |message| / 64)
    {
    }

    /** The one-byte padding loop: it ends, and has appended the zeros that section 4 asks for. */
    method Pad()
      requires Valid()
      modifies this, block
      ensures Valid() && message == old(message) + [0x80] + Zeros(ZeroCount(|old(message)|))
    {
      hide Streaming, ZeroCount;
      ghost var m, zeros := message, 0;
      Update([0x80]);
      UsedIsRemainder();
      ZeroCountLeast(|m|, 0);
      assert message == m + [0x80] + Zeros(0);
      while used != 56
        invariant Valid() && message == m + [0x80] + Zeros(zeros)
        invariant used == (|m| + 1 + zeros) % 64
        invariant zeros <= ZeroCount(|m|) && (used == 56 <==> zeros == ZeroCount(|m|))
        decreases ZeroCount(|m|) - zeros
      {
        Update([0]);
        MoreZeros(m, zeros);
        zeros := zeros + 1;
        UsedIsRemainder();
        ZeroCountLeast(|m|, zeros);
      }
    }

    method Final() returns (out: seq<bv8>)
      requires Valid()
      modifies this, block
      ensures out == Digest(old(message))
    {
      hide Streaming, Output, CountBytes, Absorb;
      ghost var m := message;
      var bits := bytes * 8 % U64_LIMIT;
      BitCount(|m|);
      Pad();
      Update(CountBytes(bits));
      assert message == Padded(m);
      StateIsAbsorbed();
      out := Output(h);
    }
  }

  /** Where a message with another part ends: in the block that was begun, or at its end. */
  lemma {:induction false} Blocks(m: seq<bv8>, part: seq<bv8>, k: nat, u: nat)
    requires k == |m| / 64 && u == |m| % 64 && 0 < |part| <= 64 - u
    ensures var all := m + part;
      && 64 * k <= |all| && all[64 * k..] == m[|m| - u..] + part
      && (u + |part| < 64 ==> |all| / 64 == k && |all| % 64 == u + |part| && all[|all| - (u + |part|)..] == all[64 * k..])
      && (u + |part| == 64 ==> |all| / 64 == k + 1 && |all| % 64 == 0 && all[64 * k..64 * (k + 1)] == all[64 * k..])
  {
    assert |m| == 64 * k + u;
    assert |m + part| == 64 * k + (u + |part|);
  }

  lemma {:induction false} MoreZeros(m: seq<bv8>, k: nat)
    ensures m + [0x80] + Zeros(k) + [0] == m + [0x80] + Zeros(k + 1)
  {
    assert Zeros(k) + [0] == Zeros(k + 1);
  }

  /** However a message was split over calls, the context is the same. */
  lemma {:induction false} SplitsAgree(c: Context, d: Context)
    requires c.Valid() && d.Valid() && c.message == d.message
    ensures c.h == d.h && c.bytes == d.bytes && c.used == d.used && c.block[..c.used] == d.block[..d.used]
  {
  }

  lemma {:induction false} AbsorbNext(m: seq<bv8>, k: nat)
    requires 64 * (k + 1) <= |m|
    ensures Absorb(m, k + 1) == Compress(Absorb(m, k), m[64 * k..64 * (k + 1)])
  {
  }

  lemma {:induction false} ByteCount(n: nat, k: nat)
    ensures (n % U64_LIMIT + k) % U64_LIMIT == (n + k) % U64_LIMIT
  {
  }

  lemma {:induction false} BitCount(n: nat)
    ensures n % U64_LIMIT * 8 % U64_LIMIT == n * 8 % U64_LIMIT
  {
    var q := n / U64_LIMIT;
    assert n * 8 == n % U64_LIMIT * 8 + (8 * q) * U64_LIMIT;
  }

  method Sha1(m: seq<bv8>) returns (out: seq<bv8>)
    requires |m| < U64_LIMIT
    ensures out == Digest(m)
  {
    var c := new Context();
    c.Update(m);
    assert [] + m == m;
    out := c.Final();
  }
}
