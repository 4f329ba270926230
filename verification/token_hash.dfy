/** The rolling token hash (FNV-1a over little-endian token ids, distributed.c:1489-1526). */
module TokenHash {
  import opened Words

  type Hash = bv64

  const HASH_INIT: Hash := 1469598103934665603
  const HASH_PRIME: Hash := 1099511628211

  /** One hash step per token.  Only the concrete Fnv1a below looks inside; everything else holds for any step. */
  type Step = (Hash, u32) -> Hash

  function Fold(step: Step, h: Hash, tokens: seq<u32>): Hash {
    if tokens == [] then h
    else step(Fold(step, h, tokens[..|tokens| - 1]), tokens[|tokens| - 1])
  }

  /** Hashing a span after a prefix is hashing both: the rolling hash composes. */
  lemma {:induction false} FoldConcat(step: Step, h: Hash, a: seq<u32>, b: seq<u32>)
    ensures Fold(step, h, a + b) == Fold(step, Fold(step, h, a), b)
  {
    if b == [] {
      assert a + b == a;
    } else {
      var k := |b| - 1;
      assert (a + b)[..|a| + k] == a + b[..k];
      FoldConcat(step, h, a, b[..k]);
    }
  }

  method UpdateSpan(step: Step, h: Hash, tokens: seq<u32>) returns (r: Hash)
    ensures r == Fold(step, h, tokens)
  {
    r := h;
    for i := 0 to |tokens|
      invariant r == Fold(step, h, tokens[..i])
    {
      r := step(r, tokens[i]);
      assert tokens[..i + 1][..i] == tokens[..i];
    }
    assert tokens[..|tokens|] == tokens;
  }

  /** The concrete step: the four bytes of a token enter lowest first. */
  function Fnv1a(h: Hash, token: u32): Hash {
    MixBytes(h, token, 4)
  }

  function MixBytes(h: Hash, rest: u32, n: nat): Hash
    decreases n
  {
    if n == 0 then h else MixBytes(Mix(h, rest % 0x100), rest / 0x100, n - 1)
  }

  /** Xor the byte in, then multiply by the prime modulo 2^64. */
  function Mix(h: Hash, b: u8): Hash {
    (h ^ (b as bv64)) * HASH_PRIME
  }

  /** Two published values of 64-bit FNV-1a: the hashes of "a" and of "b" from its usual start. */
  lemma {:induction false} KnownHashes()
    ensures Mix(0xcbf29ce484222325, 97) == 0xaf63dc4c8601ec8c && Mix(0xcbf29ce484222325, 98) == 0xaf63df4c8601f1a5
  {
  }

  method UpdateToken(h: Hash, token: u32) returns (r: Hash)
    ensures r == Fnv1a(h, token)
  {
    hide Mix;
    r := h;
    var rest := token;
    for i := 0 to 4
      invariant MixBytes(r, rest, 4 - i) == Fnv1a(h, token)
    {
      r := Mix(r, rest % 0x100);
      rest := rest / 0x100;
    }
  }
}
