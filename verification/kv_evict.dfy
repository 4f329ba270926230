/** Eviction in the disk KV store (kv_store.c:561-607): a greedy loop over the index under a byte target. */
module KvEvict {
  import opened Words

  /** One cached checkpoint as the index knows it. */
  datatype Entry = Entry(
    path: string,
    sha: string,
    fileSize: u64,
    tokens: u32,
    textBytes: u32,
    modelId: u8,
    quantBits: u8,
    ctxSize: u32,
    hits: u32,
    lastUsed: u64)

  function Total(es: seq<Entry>): nat {
    if es == [] then 0 else Total(es[..|es| - 1]) + es[|es| - 1].fileSize
  }

  /** a goes before b: lower score, or the same score and used longer ago.  The scan compares this way. */
  predicate Less(score: Entry -> real, a: Entry, b: Entry) {
    score(a) < score(b) || (score(a) == score(b) && a.lastUsed < b.lastUsed)
  }

  /** v is the first entry that no other goes before. */
  ghost predicate IsVictim(score: Entry -> real, es: seq<Entry>, v: nat) {
    && v < |es|
    && (forall i :: 0 <= i < |es| ==> !Less(score, es[i], es[v]))
    && (forall i :: 0 <= i < v ==> Less(score, es[v], es[i]))
  }

  function Victim(score: Entry -> real, es: seq<Entry>): (v: nat)
    requires es != []
    ensures IsVictim(score, es, v)
  {
    if |es| == 1 then 0
    else
      var n := |es| - 1;
      var v := Victim(score, es[..n]);
      assert forall i :: 0 <= i < n ==> es[..n][i] == es[i];
      if Less(score, es[n], es[v]) then n else v
  }

  /** What eviction leaves in the index, and what it took out, in order.  A failed unlink ends the loop, because the
      running total is then set to zero. */
  function Run(score: Entry -> real, unlinks: Entry -> bool, es: seq<Entry>, total: nat, target: nat)
    : (r: (seq<Entry>, seq<Entry>))
    decreases |es|
  {
    if total <= target || es == [] then (es, [])
    else
      var v := Victim(score, es);
      var rest := Run(score, unlinks, WithoutAt(es, v), Remaining(total, es[v], unlinks(es[v])), target);
      (rest.0, [es[v]] + rest.1)
  }

  function Remaining(total: nat, e: Entry, unlinked: bool): nat {
    if !unlinked then 0 else if total >= e.fileSize then total - e.fileSize else 0
  }

  ghost predicate AllUnlink(unlinks: Entry -> bool) {
    forall e :: unlinks(e)
  }

  // ---------- Sums ----------

  lemma {:induction false} TotalConcat(a: seq<Entry>, b: seq<Entry>)
    ensures Total(a + b) == Total(a) + Total(b)
  {
    if b == [] {
      assert a + b == a;
    } else {
      var n := |b| - 1;
      TotalConcat(a, b[..n]);
      assert (a + b)[..|a| + n] == a + b[..n];
    }
  }

  lemma {:induction false} TotalWithout(es: seq<Entry>, i: nat)
    requires i < |es|
    ensures Total(WithoutAt(es, i)) == Total(es) - es[i].fileSize
    ensures multiset(es) == multiset(WithoutAt(es, i)) + multiset{es[i]}
  {
    TotalConcat(es[..i], es[i + 1..]);
    TotalConcat(es[..i], es[i..]);
    TotalConcat([es[i]], es[i + 1..]);
    assert es[i..] == [es[i]] + es[i + 1..];
    assert es == es[..i] + es[i..];
    assert Total([es[i]]) == es[i].fileSize by { assert [es[i]][..0] == []; }
  }

  // ---------- Exact greedy ----------

  /** The order of victims and survivors. */
  ghost predicate Ordered(score: Entry -> real, kept: seq<Entry>, out: seq<Entry>) {
    && (forall e, k :: e in out && k in kept ==> !Less(score, k, e))
    && (forall i, j :: 0 <= i < j < |out| ==> !Less(score, out[j], out[i]))
  }

  /** kept is es without some of its entries, in the same order. */
  ghost predicate Subsequence(kept: seq<Entry>, es: seq<Entry>) {
    if kept == es then true
    else exists i :: 0 <= i < |es| && Subsequence(kept, WithoutAt(es, i))
  }

  /** Survivors fit, they and the victims are the old entries, the victims are the least ones, and putting the last
      victim back would exceed the target. */
  ghost predicate Exact(score: Entry -> real, es: seq<Entry>, target: nat, kept: seq<Entry>, out: seq<Entry>) {
    && Total(kept) <= target
    && multiset(es) == multiset(kept) + multiset(out) && Subsequence(kept, es)
    && Ordered(score, kept, out)
    && (if out == [] then kept == es else Total(kept) + out[|out| - 1].fileSize > target)
  }

  /** Eviction is exact greedy when its running total is the sum of the sizes and deletes succeed. */
  lemma {:induction false} ExactGreedy(score: Entry -> real, unlinks: Entry -> bool, es: seq<Entry>, target: nat)
    requires AllUnlink(unlinks)
    ensures var r := Run(score, unlinks, es, Total(es), target); Exact(score, es, target, r.0, r.1)
    decreases |es|
  {
    hide Victim, Total, Less, Ordered, Exact, Run;
    if Total(es) <= target || es == [] {
      RunDone(score, unlinks, es, Total(es), target);
      NothingOut(score, es, target);
    } else {
      var v := Victim(score, es);
      var rest := WithoutAt(es, v);
      RunStep(score, unlinks, es, Total(es), target);
      TotalWithout(es, v);
      ExactGreedy(score, unlinks, rest, target);
      var r := Run(score, unlinks, rest, Total(rest), target);
      ExactStep(score, es, v, target, r.0, r.1);
    }
  }

  lemma {:induction false} RunStep(score: Entry -> real, unlinks: Entry -> bool, es: seq<Entry>, total: nat, target: nat)
    requires total > target && es != []
    ensures var v := Victim(score, es);
      var rest := Run(score, unlinks, WithoutAt(es, v), Remaining(total, es[v], unlinks(es[v])), target);
      Run(score, unlinks, es, total, target) == (rest.0, [es[v]] + rest.1)
  {
    hide Victim;
  }

  lemma {:induction false} RunDone(score: Entry -> real, unlinks: Entry -> bool, es: seq<Entry>, total: nat, target: nat)
    requires total <= target || es == []
    ensures Run(score, unlinks, es, total, target) == (es, [])
  {
  }

  /** One more victim in front. */
  lemma {:induction false} ExactStep(score: Entry -> real, es: seq<Entry>, v: nat, target: nat, kept: seq<Entry>, out: seq<Entry>)
    requires v < |es| && IsVictim(score, es, v) && Total(es) > target
    requires Exact(score, WithoutAt(es, v), target, kept, out)
    ensures Exact(score, es, target, kept, [es[v]] + out)
  {
    hide Total, Less, Ordered, Subsequence, WithoutAt, IsVictim;
    TotalWithout(es, v);
    SubsequenceStep(kept, es, v);
    VictimFirst(score, es, v, kept, out);
    var all := [es[v]] + out;
    assert all[|all| - 1] == if out == [] then es[v] else out[|out| - 1];
  }

  lemma {:induction false} SubsequenceStep(kept: seq<Entry>, es: seq<Entry>, v: nat)
    requires v < |es| && Subsequence(kept, WithoutAt(es, v))
    ensures Subsequence(kept, es)
  {
  }

  lemma {:induction false} NothingOut(score: Entry -> real, es: seq<Entry>, target: nat)
    requires Total(es) <= target || es == []
    ensures Exact(score, es, target, es, [])
  {
  }

  lemma {:induction false} VictimFirst(score: Entry -> real, es: seq<Entry>, v: nat, kept: seq<Entry>, out: seq<Entry>)
    requires IsVictim(score, es, v) && Ordered(score, kept, out)
    requires multiset(WithoutAt(es, v)) == multiset(kept) + multiset(out)
    ensures Ordered(score, kept, [es[v]] + out)
  {
    hide Less;
    forall k | k in kept || k in out ensures !Less(score, k, es[v]) {
      assert k in multiset(kept) + multiset(out);
      assert k in WithoutAt(es, v);
      assert k in es;
    }
    var all := [es[v]] + out;
    forall i, j | 0 <= i < j < |all| ensures !Less(score, all[j], all[i]) {
      assert all[j] == out[j - 1];
      if i == 0 { assert all[j] in out; } else { assert all[i] == out[i - 1]; }
    }
  }

  /** In fields: a victim has a lower score than every survivor and every later victim, or the same score and was not used
      later. */
  lemma {:induction false} LeastAreEvicted(score: Entry -> real, unlinks: Entry -> bool, es: seq<Entry>, target: nat)
    requires AllUnlink(unlinks)
    ensures var r := Run(score, unlinks, es, Total(es), target);
      && (forall v, k :: v in r.1 && k in r.0 ==>
            score(v) < score(k) || (score(v) == score(k) && v.lastUsed <= k.lastUsed))
      && (forall i, j :: 0 <= i < j < |r.1| ==>
            score(r.1[i]) < score(r.1[j]) || (score(r.1[i]) == score(r.1[j]) && r.1[i].lastUsed <= r.1[j].lastUsed))
  {
    hide Run, Total, Subsequence;
    ExactGreedy(score, unlinks, es, target);
  }

  /** In fields: the victim has the lowest score, among those of that score it was used longest ago, and among those tied
      in both it is the first in the index. */
  lemma {:induction false} VictimInFields(score: Entry -> real, es: seq<Entry>)
    requires es != []
    ensures var v := Victim(score, es); v < |es| && forall i :: 0 <= i < |es| ==>
      && score(es[v]) <= score(es[i])
      && (score(es[v]) == score(es[i]) ==> es[v].lastUsed <= es[i].lastUsed)
      && (score(es[v]) == score(es[i]) && es[v].lastUsed == es[i].lastUsed ==> v <= i)
  {
    assert IsVictim(score, es, Victim(score, es));
    hide Victim;
  }

  /** The running total is 64 bits wide.  When the sizes sum to 2^64 or more, what survives never fits. */
  lemma {:induction false} OverflowNeverFits(score: Entry -> real, unlinks: Entry -> bool, es: seq<Entry>, total: u64, target: u64)
    requires AllUnlink(unlinks) && Total(es) >= total + U64_LIMIT
    ensures Total(Run(score, unlinks, es, total, target).0) > target
    decreases |es|
  {
    hide Victim;
    if total > target && es != [] {
      var v := Victim(score, es);
      hide Total;
      TotalWithout(es, v);
      if total >= es[v].fileSize {
        OverflowNeverFits(score, unlinks, WithoutAt(es, v), total - es[v].fileSize, target);
      }
    }
  }

  /** Eviction as the source runs it reaches its target exactly when the directory's size fits 64 bits. */
  lemma {:induction false} FitsIff(score: Entry -> real, unlinks: Entry -> bool, es: seq<Entry>, target: u64)
    requires AllUnlink(unlinks)
    ensures Total(Run(score, unlinks, es, Total(es) % U64_LIMIT, target).0) <= target <==> Total(es) < U64_LIMIT
  {
    hide Run, Total, Ordered, Subsequence;
    if Total(es) < U64_LIMIT {
      ExactGreedy(score, unlinks, es, target);
    } else {
      OverflowNeverFits(score, unlinks, es, Total(es) % U64_LIMIT, target);
    }
  }

  /** Four files of 2^62 bytes: the total wraps to zero and nothing is evicted, whatever the target. */
  lemma {:induction false} WrapExample(score: Entry -> real, unlinks: Entry -> bool, e: Entry, target: u64)
    requires e.fileSize == 0x4000_0000_0000_0000
    ensures var es := [e.(path := "a"), e.(path := "b"), e.(path := "c"), e.(path := "d")];
      && (forall i, j :: 0 <= i < j < |es| ==> es[i].path != es[j].path)
      && Run(score, unlinks, es, Total(es) % U64_LIMIT, target).0 == es
      && Total(es) > target
  {
    var es := [e.(path := "a"), e.(path := "b"), e.(path := "c"), e.(path := "d")];
    assert Total(es[..0]) == 0;
    forall k | 0 <= k < 4 ensures Total(es[..k + 1]) == Total(es[..k]) + e.fileSize {
      assert es[..k + 1][..k] == es[..k];
    }
    assert Total(es[..0 + 1]) == e.fileSize && Total(es[..1 + 1]) == 2 * e.fileSize;
    assert Total(es[..2 + 1]) == 3 * e.fileSize && Total(es[..3 + 1]) == 4 * e.fileSize;
    assert es[..4] == es;
  }

  ghost predicate AllButLast(unlinks: Entry -> bool, out: seq<Entry>) {
    forall i :: 0 <= i < |out| - 1 ==> unlinks(out[i])
  }

  /** At most one delete fails, and it is the last thing eviction does. */
  lemma {:induction false} FailureStops(score: Entry -> real, unlinks: Entry -> bool, es: seq<Entry>, total: nat, target: nat)
    ensures AllButLast(unlinks, Run(score, unlinks, es, total, target).1)
    decreases |es|
  {
    hide Victim;
    if total > target && es != [] {
      var v := Victim(score, es);
      var left := Remaining(total, es[v], unlinks(es[v]));
      FailureStops(score, unlinks, WithoutAt(es, v), left, target);
      var out := Run(score, unlinks, WithoutAt(es, v), left, target).1;
      assert !unlinks(es[v]) ==> out == [];
      AllButLastCons(unlinks, es[v], out);
    }
  }

  lemma {:induction false} AllButLastCons(unlinks: Entry -> bool, e: Entry, out: seq<Entry>)
    requires AllButLast(unlinks, out) && (unlinks(e) || out == [])
    ensures AllButLast(unlinks, [e] + out)
  {
    forall i | 0 <= i < |[e] + out| - 1 ensures unlinks(([e] + out)[i]) {
      if i > 0 { assert ([e] + out)[i] == out[i - 1]; }
    }
  }
}
