/** Fixed-width unsigned integers and their byte encodings, and the few facts about sequences and products that more
    than one module needs. */
module Words {

  const U32_LIMIT := 0x1_0000_0000
  const U64_LIMIT := 0x1_0000_0000_0000_0000

  type u8 = x: int | 0 <= x < 0x100
  type u32 = x: int | 0 <= x < U32_LIMIT
  type u64 = x: int | 0 <= x < U64_LIMIT

  datatype Option<+T> = None | Some(value: T) {
    predicate IsFailure() {
      None?
    }

    function PropagateFailure<U>(): Option<U>
      requires None?
    {
      None
    }

    function Extract(): T
      requires Some?
    {
      value
    }
  }

  // ---------- Sequences and products ----------

  /** The sequence without its element at index i. */
  function WithoutAt<T>(s: seq<T>, i: nat): (r: seq<T>)
    requires i < |s|
    ensures |r| == |s| - 1
  {
    s[..i] + s[i + 1..]
  }

  lemma {:induction false} Associate<T>(a: seq<T>, b: seq<T>, c: seq<T>)
    ensures (a + b) + c == a + (b + c)
  {
  }

  lemma {:induction false} JoinParts<T>(a: seq<T>, i: nat, j: nat, k: nat)
    requires i <= j <= k <= |a|
    ensures a[i..k] == a[i..j] + a[j..k]
  {
  }

  lemma {:induction false} MulMono(a: nat, b: nat, q: nat)
    requires a <= b
    ensures a * q <= b * q
  {
    assert b * q == a * q + (b - a) * q;
  }

  // ---------- Little-endian words (saved payloads) ----------

  function Le32(v: u32): (b: seq<u8>)
    ensures |b| == 4
  {
    [v % 0x100, v / 0x100 % 0x100, v / 0x100 / 0x100 % 0x100, v / 0x100 / 0x100 / 0x100]
  }

  function FromLe32(b: seq<u8>): u32
    requires |b| == 4
  {
    Join(b[0], Join(b[1], Join(b[2], b[3])))
  }

  /** A number from its low byte and the rest. */
  function Join(low: u8, high: nat): (n: nat)
    ensures n == low as int + 0x100 * high
  {
    low as int + 0x100 * high
  }

  lemma {:induction false} Split(n: nat, low: u8, high: nat)
    ensures n == Join(low, high) <==> n % 0x100 == low && n / 0x100 == high
  {
  }

  lemma {:induction false} Le32Inverse(v: u32)
    ensures FromLe32(Le32(v)) == v
  {
    Split(v, v % 0x100, v / 0x100);
    Split(v / 0x100, v / 0x100 % 0x100, v / 0x100 / 0x100);
    Split(v / 0x100 / 0x100, v / 0x100 / 0x100 % 0x100, v / 0x100 / 0x100 / 0x100);
  }

  /** Lowest byte first. */
  lemma {:induction false} Le32Value(v: u32)
    ensures var b := Le32(v);
      v == b[0] as int + 0x100 * b[1] as int + 0x1_0000 * b[2] as int + 0x100_0000 * b[3] as int
  {
    Split(v, v % 0x100, v / 0x100);
    Split(v / 0x100, v / 0x100 % 0x100, v / 0x100 / 0x100);
    Split(v / 0x100 / 0x100, v / 0x100 / 0x100 % 0x100, v / 0x100 / 0x100 / 0x100);
  }

  lemma {:induction false} Le32FromLe32(b: seq<u8>)
    requires |b| == 4
    ensures Le32(FromLe32(b)) == b
  {
    var hi := Join(b[2], b[3]);
    var mid := Join(b[1], hi);
    Split(hi, b[2], b[3]);
    Split(mid, b[1], hi);
    Split(Join(b[0], mid), b[0], mid);
  }

  function Le32s(xs: seq<u32>): (b: seq<u8>)
    ensures |b| == 4 * |xs|
  {
    if xs == [] then [] else Le32s(xs[..|xs| - 1]) + Le32(xs[|xs| - 1])
  }

  /** The first n words of b. */
  function FromLe32s(b: seq<u8>, n: nat): (xs: seq<u32>)
    requires 4 * n <= |b|
    ensures |xs| == n
    ensures forall i :: 0 <= i < n ==> xs[i] == FromLe32(b[4 * i..4 * i + 4])
  {
    seq(n, i requires 0 <= i < n => FromLe32(b[4 * i..4 * i + 4]))
  }

  lemma {:induction false} WordAt(xs: seq<u32>, rest: seq<u8>, i: nat)
    requires i < |xs|
    ensures (Le32s(xs) + rest)[4 * i..4 * i + 4] == Le32(xs[i])
  {
    var n := |xs|;
    var tail := Le32(xs[n - 1]) + rest;
    assert Le32s(xs) + rest == Le32s(xs[..n - 1]) + tail;
    if i < n - 1 {
      WordAt(xs[..n - 1], tail, i);
    }
  }

  /** Writing words and reading them back gives the words, whatever follows them. */
  lemma {:induction false} WordsRoundTrip(xs: seq<u32>, rest: seq<u8>)
    ensures FromLe32s(Le32s(xs) + rest, |xs|) == xs
  {
    forall i | 0 <= i < |xs| ensures FromLe32s(Le32s(xs) + rest, |xs|)[i] == xs[i] {
      WordAt(xs, rest, i);
      Le32Inverse(xs[i]);
    }
  }

  /** Reading words and writing them gives the bytes that were read. */
  lemma {:induction false} BytesRoundTrip(b: seq<u8>, n: nat)
    requires 4 * n <= |b|
    ensures Le32s(FromLe32s(b, n)) == b[..4 * n]
  {
    if n != 0 {
      var xs := FromLe32s(b, n);
      assert xs[..n - 1] == FromLe32s(b, n - 1);
      BytesRoundTrip(b, n - 1);
      Le32FromLe32(b[4 * n - 4..4 * n]);
      assert b[..4 * n] == b[..4 * n - 4] + b[4 * n - 4..4 * n];
    }
  }

  /** A file is n words followed by rest exactly when reading n words gives them and rest is what is left. */
  lemma {:induction false} WordsThenRest(file: seq<u8>, words: seq<u32>, rest: seq<u8>)
    requires 4 * |words| <= |file|
    ensures file == Le32s(words) + rest <==> FromLe32s(file, |words|) == words && file[4 * |words|..] == rest
  {
    var n := |words|;
    if file == Le32s(words) + rest {
      WordsRoundTrip(words, rest);
    }
    if FromLe32s(file, n) == words && file[4 * n..] == rest {
      BytesRoundTrip(file, n);
      assert file == file[..4 * n] + file[4 * n..];
    }
  }

  /** Reading fewer words reads the same words. */
  lemma {:induction false} FirstWords(b: seq<u8>, n: nat, k: nat)
    requires k <= n && 4 * n <= |b|
    ensures FromLe32s(b, n)[..k] == FromLe32s(b, k)
  {
  }

  lemma {:induction false} Le32sConcat(a: seq<u32>, b: seq<u32>)
    ensures Le32s(a + b) == Le32s(a) + Le32s(b)
  {
    if b == [] {
      assert a + b == a;
    } else {
      var m := |b| - 1;
      assert (a + b)[..|a| + m] == a + b[..m];
      Le32sConcat(a, b[..m]);
    }
  }

  // ---------- Big-endian words (wire records) ----------

  /** Network byte order: the little-endian bytes reversed. */
  function Be32(v: u32): (b: seq<u8>)
    ensures |b| == 4
  {
    var l := Le32(v);
    [l[3], l[2], l[1], l[0]]
  }

  function FromBe32(b: seq<u8>): u32
    requires |b| == 4
  {
    FromLe32([b[3], b[2], b[1], b[0]])
  }

  /** Highest byte first. */
  lemma {:induction false} Be32Value(v: u32)
    ensures var b := Be32(v);
      v == 0x100_0000 * b[0] as int + 0x1_0000 * b[1] as int + 0x100 * b[2] as int + b[3] as int
  {
    hide Le32;
    Le32Value(v);
  }

  lemma {:induction false} Be32Inverse(v: u32)
    ensures FromBe32(Be32(v)) == v
  {
    var l := Le32(v);
    assert [l[0], l[1], l[2], l[3]] == l;
    Le32Inverse(v);
  }

  lemma {:induction false} Be32FromBe32(b: seq<u8>)
    requires |b| == 4
    ensures Be32(FromBe32(b)) == b
  {
    Le32FromLe32([b[3], b[2], b[1], b[0]]);
  }
}
