/** Activation vectors on the wire at 32, 16 or 8 bits per value (distributed.c:786-816, 925-1021). */
module Activation {
  import opened Words
  import opened Half
  import opened Float8

  type Bytes = seq<u8>

  /** Bytes per value for a requested width in bits; zero asks for the default of 32. */
  function Width(bits: u32): (w: Option<nat>)
    ensures w.Some? ==> w.value == 1 || w.value == 2 || w.value == 4
    ensures w.Some? <==> bits in {0, 8, 16, 32}
    ensures w.Some? ==> 8 * w.value == if bits == 0 then 32 else bits
  {
    if bits == 0 || bits == 32 then Some(4) else if bits == 16 then Some(2) else if bits == 8 then Some(1) else None
  }

  /** One value in memory order of a little-endian host. */
  function EncodeOne(plusHalf: real -> real, w: nat, x: u32): (b: Bytes)
    requires w == 1 || w == 2 || w == 4
    ensures |b| == w
  {
    if w == 4 then Le32(x)
    else if w == 2 then
      var h := Encode16(x);
      [h % 0x100, h / 0x100]
    else [Encode8(plusHalf, x) % 0x100]
  }

  function DecodeOne(w: nat, b: Bytes): u32
    requires (w == 1 || w == 2 || w == 4) && |b| == w
  {
    if w == 4 then FromLe32(b)
    else if w == 2 then Decode16(b[0] as int + 0x100 * b[1] as int)
    else Decode8(b[0])
  }

  /** Element-wise encoding. */
  function EncodeVector(plusHalf: real -> real, w: nat, xs: seq<u32>): (b: Bytes)
    requires w == 1 || w == 2 || w == 4
    ensures |b| == w * |xs|
  {
    if xs == [] then []
    else EncodeVector(plusHalf, w, xs[..|xs| - 1]) + EncodeOne(plusHalf, w, xs[|xs| - 1])
  }

  /** dist_decode_activation_payload: the decoded floats must fit a 32-bit byte count. */
  function DecodeVector(bits: u32, wire: Bytes): Option<seq<u32>> {
    var w :- Width(bits);
    if |wire| % w != 0 then None
    else
      var n := |wire| / w;
      if n * 4 > U32_LIMIT - 1 then None
      else Some(Elements(w, wire, n))
  }

  function Elements(w: nat, wire: Bytes, n: nat): (xs: seq<u32>)
    requires (w == 1 || w == 2 || w == 4) && n * w <= |wire|
    ensures |xs| == n
  {
    if n == 0 then []
    else
      SliceInRange(n, w);
      Elements(w, wire, n - 1) + [DecodeOne(w, wire[(n - 1) * w..n * w])]
  }

  lemma {:induction false} SliceInRange(n: nat, w: nat)
    requires n > 0
    ensures 0 <= (n - 1) * w && n * w == (n - 1) * w + w
  {
  }

  /** dist_activation_wire_bytes: the bytes of so many values, if they fit 32 bits. */
  function WireBytes(bits: u32, values: nat): (r: Option<nat>)
    ensures r.Some? <==> bits in {0, 8, 16, 32} && values * (if bits == 0 then 32 else bits) < 8 * U32_LIMIT
    ensures r.Some? ==> 8 * r.value == values * if bits == 0 then 32 else bits
  {
    var w :- Width(bits);
    var bytes := if w == 1 then values else if w == 2 then 2 * values else 4 * values;
    if bytes < U32_LIMIT then Some(bytes) else None
  }

  /** Bytes of the announced number decode to the announced number of values. */
  lemma {:induction false} WireDecodes(bits: u32, values: nat, wire: Bytes)
    requires WireBytes(bits, values) == Some(|wire|) && 4 * values < U32_LIMIT
    ensures DecodeVector(bits, wire).Some? && |DecodeVector(bits, wire).value| == values
  {
    hide Elements;
    WholeValues(values, Width(bits).value);
  }

  // ---------- Round trip ----------

  /** A value that was decoded from an encoded one encodes to the same bytes. */
  lemma {:induction false} OneRoundTrip(plusHalf: real -> real, w: nat, x: u32)
    requires FloatSum(plusHalf) && (w == 1 || w == 2 || w == 4)
    ensures var b := EncodeOne(plusHalf, w, x);
      EncodeOne(plusHalf, w, DecodeOne(w, b)) == b
  {
    hide Encode16, Decode16, Encode8, Decode8, Le32, FromLe32, FloatSum;
    if w == 4 {
      Le32Inverse(x);
    } else if w == 2 {
      var h := Encode16(x);
      Encode16Sendable(x);
      Encode16Inverse(h);
      assert h % 0x100 + 0x100 * (h / 0x100) == h;
    } else {
      var c := Encode8(plusHalf, x);
      Encode8Range(plusHalf, x);
      Encode8Inverse(plusHalf, c);
    }
  }

  lemma {:induction false} ElementsPrefix(w: nat, a: Bytes, rest: Bytes, n: nat)
    requires (w == 1 || w == 2 || w == 4) && n * w <= |a|
    ensures Elements(w, a + rest, n) == Elements(w, a, n)
  {
    hide DecodeOne;
    if n != 0 {
      SliceInRange(n, w);
      ElementsPrefix(w, a, rest, n - 1);
      assert (a + rest)[(n - 1) * w..n * w] == a[(n - 1) * w..n * w];
    }
  }

  lemma {:induction false} ElementsSnoc(w: nat, front: Bytes, one: Bytes, n: nat)
    requires (w == 1 || w == 2 || w == 4) && |front| == n * w && |one| == w
    ensures (n + 1) * w == |front + one|
    ensures Elements(w, front + one, n + 1) == Elements(w, front, n) + [DecodeOne(w, one)]
  {
    hide DecodeOne;
    SliceInRange(n + 1, w);
    ElementsPrefix(w, front, one, n);
    assert (front + one)[n * w..(n + 1) * w] == one;
  }

  lemma {:induction false} EncodeSnoc(plusHalf: real -> real, w: nat, xs: seq<u32>, x: u32)
    requires w == 1 || w == 2 || w == 4
    ensures EncodeVector(plusHalf, w, xs + [x]) == EncodeVector(plusHalf, w, xs) + EncodeOne(plusHalf, w, x)
  {
    hide EncodeOne;
    assert (xs + [x])[..|xs|] == xs;
  }

  /** encode(decode(encode(v))) == encode(v), value by value. */
  lemma {:induction false} ElementsRoundTrip(plusHalf: real -> real, w: nat, xs: seq<u32>)
    requires FloatSum(plusHalf) && (w == 1 || w == 2 || w == 4)
    ensures |EncodeVector(plusHalf, w, xs)| == |xs| * w
    ensures EncodeVector(plusHalf, w, Elements(w, EncodeVector(plusHalf, w, xs), |xs|))
      == EncodeVector(plusHalf, w, xs)
  {
    hide EncodeOne, DecodeOne, FloatSum, EncodeVector, Elements;
    if xs == [] {
      EncodeNothing(plusHalf, w, xs);
      NoElements(w, EncodeVector(plusHalf, w, xs));
    } else {
      var n := |xs| - 1;
      var front, one := EncodeVector(plusHalf, w, xs[..n]), EncodeOne(plusHalf, w, xs[n]);
      ElementsRoundTrip(plusHalf, w, xs[..n]);
      assert xs[..n] + [xs[n]] == xs;
      EncodeSnoc(plusHalf, w, xs[..n], xs[n]);
      ElementsSnoc(w, front, one, n);
      OneRoundTrip(plusHalf, w, xs[n]);
      EncodeSnoc(plusHalf, w, Elements(w, front, n), DecodeOne(w, one));
    }
  }

  lemma {:induction false} NoElements(w: nat, wire: Bytes)
    requires w == 1 || w == 2 || w == 4
    ensures Elements(w, wire, 0) == []
  {
  }

  /** A sent vector can be decoded exactly when its floats fit a 32-bit byte count, and then encodes to the same bytes
      again. */
  lemma {:induction false} VectorRoundTrip(plusHalf: real -> real, bits: u32, xs: seq<u32>)
    requires FloatSum(plusHalf) && Width(bits).Some?
    ensures var w := Width(bits).value;
      var wire := EncodeVector(plusHalf, w, xs);
      && (DecodeVector(bits, wire).Some? <==> 4 * |xs| < U32_LIMIT)
      && (DecodeVector(bits, wire).Some? ==> EncodeVector(plusHalf, w, DecodeVector(bits, wire).value) == wire)
  {
    hide EncodeVector, Elements, FloatSum;
    var w := Width(bits).value;
    ElementsRoundTrip(plusHalf, w, xs);
    WholeValues(|xs|, w);
  }

  lemma {:induction false} WholeValues(n: nat, w: nat)
    requires w == 1 || w == 2 || w == 4
    ensures n * w % w == 0 && n * w / w == n
  {
  }

  // ---------- The chunked writer ----------

  lemma {:induction false} EncodeConcat(plusHalf: real -> real, w: nat, a: seq<u32>, b: seq<u32>)
    requires w == 1 || w == 2 || w == 4
    ensures EncodeVector(plusHalf, w, a + b) == EncodeVector(plusHalf, w, a) + EncodeVector(plusHalf, w, b)
  {
    hide EncodeOne, EncodeVector;
    if b == [] {
      assert a + b == a;
      EncodeNothing(plusHalf, w, b);
    } else {
      var n := |b| - 1;
      EncodeConcat(plusHalf, w, a, b[..n]);
      EncodeSnoc(plusHalf, w, a + b[..n], b[n]);
      EncodeSnoc(plusHalf, w, b[..n], b[n]);
      assert b[..n] + [b[n]] == b;
      Associate(a, b[..n], [b[n]]);
      Associate(EncodeVector(plusHalf, w, a), EncodeVector(plusHalf, w, b[..n]), EncodeOne(plusHalf, w, b[n]));
    }
  }

  /** The inner loop: the buffer for n values from index done. */
  method EncodeChunk(plusHalf: real -> real, w: nat, src: seq<u32>, done: nat, n: nat) returns (buf: Bytes)
    requires (w == 1 || w == 2 || w == 4) && done + n <= |src|
    ensures buf == EncodeVector(plusHalf, w, src[done..done + n])
  {
    hide EncodeOne;
    buf := [];
    for i := 0 to n
      invariant buf == EncodeVector(plusHalf, w, src[done..done + i])
    {
      assert src[done..done + i + 1][..i] == src[done..done + i];
      buf := buf + EncodeOne(plusHalf, w, src[done + i]);
    }
  }

  /** writes says which calls of dist_write_full succeed.  The bytes that went out are the element-wise encoding, or a
      prefix of it when a write failed. */
  method WritePayload(plusHalf: real -> real, src: seq<u32>, bits: u32, writes: nat -> bool)
    returns (ok: bool, out: Bytes)
    requires 4 * |src| < U64_LIMIT
    ensures Width(bits).None? ==> !ok && out == []
    ensures ok ==> Width(bits).Some? && out == EncodeVector(plusHalf, Width(bits).value, src)
    ensures Width(bits).Some? ==> out <= EncodeVector(plusHalf, Width(bits).value, src)
    ensures (forall k :: writes(k)) && Width(bits).Some? ==>
      (ok <==> Width(bits).value != 4 || 4 * |src| < U32_LIMIT)
  {
    hide EncodeVector;
    ok, out := false, [];
    if Width(bits).None? { return; }
    var w, values := Width(bits).value, |src|;
    if values == 0 {
      assert EncodeVector(plusHalf, w, src) == [] by { EncodeNothing(plusHalf, w, src); }
      return true, [];
    }
    if w == 4 {
      if values * 4 > U32_LIMIT - 1 || !writes(0) { return; }
      var all := EncodeChunk(plusHalf, w, src, 0, values);
      assert src[0..values] == src;
      return true, all;
    }
    var cap := if values < 1024 * 1024 then values else 1024 * 1024;
    var done, k := 0, 0;
    assert EncodeVector(plusHalf, w, src[..0]) == [] by { EncodeNothing(plusHalf, w, src[..0]); }
    while done < values
      invariant done <= values && out == EncodeVector(plusHalf, w, src[..done])
    {
      var n := if values - done > cap then cap else values - done;
      var buf := EncodeChunk(plusHalf, w, src, done, n);
      if !writes(k) {
        EncodeConcat(plusHalf, w, src[..done], src[done..]);
        assert src[..done] + src[done..] == src;
        return;
      }
      EncodeConcat(plusHalf, w, src[..done], src[done..done + n]);
      assert src[..done] + src[done..done + n] == src[..done + n];
      out := out + buf;
      done, k := done + n, k + 1;
    }
    assert src[..done] == src;
    ok := true;
  }

  method DecodePayload(bits: u32, wire: Bytes) returns (r: Option<seq<u32>>)
    requires |wire| < U32_LIMIT
    ensures r == DecodeVector(bits, wire)
  {
    hide DecodeOne;
    if Width(bits).None? { return None; }
    var w := Width(bits).value;
    if |wire| % w != 0 { return None; }
    var values := |wire| / w;
    if values * 4 > U32_LIMIT - 1 { return None; }
    var dst: seq<u32> := [];
    for i := 0 to values
      invariant values * w <= |wire| && i * w <= values * w
      invariant dst == Elements(w, wire, i)
    {
      SliceInRange(i + 1, w);
      CompareProducts(i + 1, values, w);
      dst := dst + [DecodeOne(w, wire[i * w..(i + 1) * w])];
    }
    return Some(dst);
  }

  lemma {:induction false} EncodeNothing(plusHalf: real -> real, w: nat, xs: seq<u32>)
    requires (w == 1 || w == 2 || w == 4) && xs == []
    ensures EncodeVector(plusHalf, w, xs) == []
  {
  }
}
