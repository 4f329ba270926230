/** Monotone placement of layer entries onto device tiers (layer_pack.c).

    Tiers are numbered 0..n: tier d < n is GPU d and tier n is the CPU, which has no budget.
    A placement never moves back to an earlier tier.  The packer is greedy; the theorems below
    compare it with every other feasible placement.
  */
module LayerPack {

  const CPU := -1
  const MAX_GPUS := 16

  // ---------- What a placement is, independent of how one is found ----------

  function Tier(device: int, gpus: nat): int {
    if device == CPU then gpus else device
  }

  function Device(tier: nat, gpus: nat): int {
    if tier < gpus then tier else CPU
  }

  /** Bytes that placement p puts on the given device. */
  function Used(bytes: seq<nat>, p: seq<int>, device: int): nat
    requires |p| == |bytes|
  {
    if bytes == [] then 0
    else
      var k := |bytes| - 1;
      Used(bytes[..k], p[..k], device) + if p[k] == device then bytes[k] else 0
  }

  ghost predicate Feasible(bytes: seq<nat>, budgets: seq<nat>, p: seq<int>) {
    && |p| == |bytes|
    && (forall e :: 0 <= e < |p| ==> p[e] == CPU || 0 <= p[e] < |budgets|)
    && (forall i, j :: 0 <= i <= j < |p| ==> Tier(p[i], |budgets|) <= Tier(p[j], |budgets|))
    && (forall d :: 0 <= d < |budgets| ==> Used(bytes, p, d) <= budgets[d])
  }

  /** How far a placement has got: the tier of its last entry and the bytes it uses there. */
  datatype Cursor = Cursor(tier: int, used: nat)

  function CursorOf(bytes: seq<nat>, gpus: nat, p: seq<int>): Cursor
    requires |p| == |bytes|
  {
    if p == [] then Cursor(0, 0)
    else Cursor(Tier(p[|p| - 1], gpus), Used(bytes, p, p[|p| - 1]))
  }

  predicate AtMost(a: Cursor, b: Cursor) {
    a.tier < b.tier || (a.tier == b.tier && a.used <= b.used)
  }

  // ---------- The greedy rule ----------

  /** First tier at or after d whose whole budget holds b bytes; |budgets| (the CPU) if there is none. */
  function FirstFit(budgets: seq<nat>, d: nat, b: nat): (t: nat)
    requires d <= |budgets|
    ensures d <= t <= |budgets|
    ensures t < |budgets| ==> b <= budgets[t]
    ensures forall s :: d <= s < t ==> budgets[s] < b
    decreases |budgets| - d
  {
    if d == |budgets| || b <= budgets[d] then d else FirstFit(budgets, d + 1, b)
  }

  function Advance(budgets: seq<nat>, c: Cursor, b: nat): (next: Cursor)
    requires 0 <= c.tier <= |budgets|
    ensures c.tier <= next.tier <= |budgets|
  {
    if c.tier < |budgets| && budgets[c.tier] < c.used + b
    then Cursor(FirstFit(budgets, c.tier + 1, b), b)
    else Cursor(c.tier, c.used + b)
  }

  function After(bytes: seq<nat>, budgets: seq<nat>): (c: Cursor)
    ensures 0 <= c.tier <= |budgets|
  {
    if bytes == [] then Cursor(0, 0)
    else Advance(budgets, After(bytes[..|bytes| - 1], budgets), bytes[|bytes| - 1])
  }

  function Greedy(bytes: seq<nat>, budgets: seq<nat>): (p: seq<int>)
    ensures |p| == |bytes|
  {
    if bytes == [] then []
    else Greedy(bytes[..|bytes| - 1], budgets) + [Device(After(bytes, budgets).tier, |budgets|)]
  }

  // ---------- The packer itself ----------

  /** Return codes: 0 placed, 2 negative entry count, 3 device count out of range. */
  method ComputeLayerPlacement(entryBytes: seq<nat>, nEntries: int, gpuBudget: seq<nat>, nGpus: int,
                               deviceForEntry: array<int>)
    returns (rc: int)
    requires |gpuBudget| == MAX_GPUS
    requires nEntries <= |entryBytes| && nEntries <= deviceForEntry.Length
    modifies deviceForEntry
    ensures rc == if nEntries < 0 then 2 else if nGpus < 0 || nGpus > MAX_GPUS then 3 else 0
    ensures rc != 0 ==> deviceForEntry[..] == old(deviceForEntry[..])
    ensures rc == 0 ==> deviceForEntry[..nEntries] == Greedy(entryBytes[..nEntries], gpuBudget[..nGpus])
    ensures rc == 0 ==> deviceForEntry[nEntries..] == old(deviceForEntry[nEntries..])
  {
    if nEntries < 0 { return 2; }
    if nGpus < 0 || nGpus > MAX_GPUS { return 3; }
    hide Greedy, After, FirstFit, Advance;
    var budget := new nat[MAX_GPUS](i requires 0 <= i < MAX_GPUS => gpuBudget[i]);
    ghost var budgets := gpuBudget[..nGpus];
    var d := 0;
    GreedyNil(budgets);
    for e := 0 to nEntries
      invariant 0 <= d <= nGpus
      invariant After(entryBytes[..e], budgets).tier == d
      invariant d < nGpus ==> budget[d] == budgets[d] - After(entryBytes[..e], budgets).used
      invariant forall k :: d < k < nGpus ==> budget[k] == budgets[k]
      invariant deviceForEntry[..e] == Greedy(entryBytes[..e], budgets)
      invariant deviceForEntry[nEntries..] == old(deviceForEntry[nEntries..])
    {
      ghost var before := After(entryBytes[..e], budgets);
      GreedyNext(entryBytes, budgets, e);
      d := SkipFullDevices(budgets, before, budget, nGpus, d, entryBytes[e]);
      if d < nGpus {
        deviceForEntry[e] := d;
        budget[d] := budget[d] - entryBytes[e];
      } else {
        deviceForEntry[e] := CPU;
      }
      assert deviceForEntry[..e + 1] == deviceForEntry[..e] + [deviceForEntry[e]];
    }
    return 0;
  }

  lemma {:induction false} GreedyNil(budgets: seq<nat>)
    ensures After([], budgets) == Cursor(0, 0) && Greedy([], budgets) == []
  {
  }

  /** What one more entry does to the cursor, and where it puts the entry. */
  lemma {:induction false} GreedyNext(bytes: seq<nat>, budgets: seq<nat>, e: nat)
    requires e < |bytes|
    ensures var before, after := After(bytes[..e], budgets), After(bytes[..e + 1], budgets);
      && after == Advance(budgets, before, bytes[e])
      && Greedy(bytes[..e + 1], budgets) == Greedy(bytes[..e], budgets) + [Device(after.tier, |budgets|)]
      && after.used == if after.tier == before.tier then before.used + bytes[e] else bytes[e]
  {
    hide FirstFit;
    assert bytes[..e + 1][..e] == bytes[..e];
  }

  /** The inner loop: advance until the remaining budget of device d holds b bytes. */
  method SkipFullDevices(ghost budgets: seq<nat>, ghost before: Cursor, budget: array<nat>, nGpus: nat, start: nat, b: nat)
    returns (d: nat)
    requires nGpus == |budgets| <= budget.Length && before.tier == start <= nGpus
    requires before.tier < nGpus ==> budget[before.tier] == budgets[before.tier] - before.used
    requires forall k :: before.tier < k < nGpus ==> budget[k] == budgets[k]
    ensures d == Advance(budgets, before, b).tier
    ensures d < nGpus ==> b <= budget[d]
  {
    d := start;
    while d < nGpus && b > budget[d]
      invariant before.tier <= d <= nGpus
      invariant d == before.tier || budgets[before.tier] < before.used + b
      invariant forall k :: before.tier < k < d ==> budgets[k] < b
    {
      d := d + 1;
    }
  }

  // ---------- The greedy placement is feasible ----------

  /** A device that no entry is on has no bytes used. */
  lemma {:induction false} UnusedDevice(bytes: seq<nat>, p: seq<int>, device: int)
    requires |p| == |bytes|
    requires device !in p
    ensures Used(bytes, p, device) == 0
  {
    if bytes != [] {
      UnusedDevice(bytes[..|bytes| - 1], p[..|bytes| - 1], device);
    }
  }

  /** The greedy cursor is what the placement says it is, and no entry is beyond it. */
  lemma {:induction false} GreedyCursor(bytes: seq<nat>, budgets: seq<nat>)
    ensures After(bytes, budgets) == CursorOf(bytes, |budgets|, Greedy(bytes, budgets))
    ensures forall e :: 0 <= e < |bytes| ==>
      var t := Tier(Greedy(bytes, budgets)[e], |budgets|); 0 <= t <= After(bytes, budgets).tier
    ensures Used(bytes, Greedy(bytes, budgets), Device(After(bytes, budgets).tier, |budgets|))
         == After(bytes, budgets).used
  {
    if bytes != [] {
      var k := |bytes| - 1;
      GreedyCursor(bytes[..k], budgets);
      var p, q := Greedy(bytes, budgets), Greedy(bytes[..k], budgets);
      assert p[..k] == q;
      var before, after := After(bytes[..k], budgets), After(bytes, budgets);
      if after.tier != before.tier {
        UnusedDevice(bytes[..k], q, Device(after.tier, |budgets|));
      }
    }
  }

  /** One more entry keeps a placement feasible if it does not move back and its device has room. */
  lemma {:induction false} AppendFeasible(bytes: seq<nat>, budgets: seq<nat>, p: seq<int>)
    requires |p| == |bytes| > 0
    requires Feasible(bytes[..|p| - 1], budgets, p[..|p| - 1])
    requires p[|p| - 1] == CPU || 0 <= p[|p| - 1] < |budgets|
    requires forall i :: 0 <= i < |p| ==> Tier(p[i], |budgets|) <= Tier(p[|p| - 1], |budgets|)
    requires p[|p| - 1] != CPU ==> Used(bytes, p, p[|p| - 1]) <= budgets[p[|p| - 1]]
    ensures Feasible(bytes, budgets, p)
  {
    var k, n := |p| - 1, |budgets|;
    var q := p[..k];
    forall i, j | 0 <= i <= j < |p| ensures Tier(p[i], n) <= Tier(p[j], n) {
      if j < k { assert Tier(q[i], n) <= Tier(q[j], n); }
    }
    forall d | 0 <= d < n ensures Used(bytes, p, d) <= budgets[d] {
      assert Used(bytes[..k], q, d) <= budgets[d];
    }
    forall e | 0 <= e < |p| ensures p[e] == CPU || 0 <= p[e] < n {
      if e < k { assert p[e] == q[e]; }
    }
  }

  lemma {:induction false} GreedyFeasible(bytes: seq<nat>, budgets: seq<nat>)
    ensures Feasible(bytes, budgets, Greedy(bytes, budgets))
  {
    if bytes == [] {
    } else {
      var k := |bytes| - 1;
      GreedyFeasible(bytes[..k], budgets);
      GreedyCursor(bytes[..k], budgets);
      GreedyCursor(bytes, budgets);
      var p := Greedy(bytes, budgets);
      assert p[..k] == Greedy(bytes[..k], budgets);
      AppendFeasible(bytes, budgets, p);
    }
  }

  // ---------- Greedy stays ahead of every feasible placement ----------

  lemma {:induction false} UsedGrows(bytes: seq<nat>, p: seq<int>, device: int, k: nat)
    requires |p| == |bytes| && k <= |bytes|
    ensures Used(bytes[..k], p[..k], device) <= Used(bytes, p, device)
    decreases |bytes|
  {
    if k < |bytes| {
      var m := |bytes| - 1;
      UsedGrows(bytes[..m], p[..m], device, k);
      assert bytes[..m][..k] == bytes[..k] && p[..m][..k] == p[..k];
    } else {
      assert bytes[..k] == bytes && p[..k] == p;
    }
  }

  lemma {:induction false} FeasiblePrefix(bytes: seq<nat>, budgets: seq<nat>, p: seq<int>, k: nat)
    requires Feasible(bytes, budgets, p) && k <= |bytes|
    ensures Feasible(bytes[..k], budgets, p[..k])
  {
    forall d | 0 <= d < |budgets| ensures Used(bytes[..k], p[..k], d) <= budgets[d] {
      UsedGrows(bytes, p, d, k);
    }
  }

  /** One more entry: if greedy is no further than a feasible rival, it stays so. */
  lemma {:induction false} AdvanceStaysAhead(bytes: seq<nat>, budgets: seq<nat>, p: seq<int>, c: Cursor)
    requires Feasible(bytes, budgets, p) && bytes != []
    requires 0 <= c.tier <= |budgets|
    requires AtMost(c, CursorOf(bytes[..|bytes| - 1], |budgets|, p[..|bytes| - 1]))
    ensures AtMost(Advance(budgets, c, bytes[|bytes| - 1]), CursorOf(bytes, |budgets|, p))
  {
    var k := |bytes| - 1;
    var b, n := bytes[k], |budgets|;
    var rival := CursorOf(bytes[..k], n, p[..k]);
    var rival' := CursorOf(bytes, n, p);
    assert rival.tier <= rival'.tier;
    assert b <= rival'.used;
    assert rival'.tier < n ==> rival'.used <= budgets[rival'.tier];
    if rival'.tier == c.tier {
      assert p[..k] != [] ==> p[k - 1] == p[k];
      assert rival'.used >= rival.used + b;
    }
  }

  /** After every entry the greedy cursor is lexicographically no greater than that of any feasible placement. */
  lemma {:induction false} GreedyStaysAhead(bytes: seq<nat>, budgets: seq<nat>, p: seq<int>)
    requires Feasible(bytes, budgets, p)
    ensures AtMost(After(bytes, budgets), CursorOf(bytes, |budgets|, p))
  {
    if bytes != [] {
      var k := |bytes| - 1;
      FeasiblePrefix(bytes, budgets, p, k);
      GreedyStaysAhead(bytes[..k], budgets, p[..k]);
      AdvanceStaysAhead(bytes, budgets, p, After(bytes[..k], budgets));
    }
  }

  lemma {:induction false} GreedyAt(bytes: seq<nat>, budgets: seq<nat>, e: nat)
    requires e < |bytes|
    ensures Greedy(bytes, budgets)[e] == Device(After(bytes[..e + 1], budgets).tier, |budgets|)
    decreases |bytes|
  {
    var k := |bytes| - 1;
    if e < k {
      GreedyAt(bytes[..k], budgets, e);
      assert bytes[..k][..e + 1] == bytes[..e + 1];
    } else {
      assert bytes[..e + 1] == bytes;
    }
  }

  /** CPU spill starts as late as possible: an entry is on a GPU exactly when some feasible placement puts it on one. */
  lemma {:induction false} CpuSpillIsLatest(bytes: seq<nat>, budgets: seq<nat>, e: nat)
    requires e < |bytes|
    ensures Greedy(bytes, budgets)[e] != CPU
       <==> exists p: seq<int> :: Feasible(bytes, budgets, p) && p[e] != CPU
  {
    GreedyFeasible(bytes, budgets);
    forall p: seq<int> | Feasible(bytes, budgets, p) && p[e] != CPU
      ensures Greedy(bytes, budgets)[e] != CPU
    {
      FeasiblePrefix(bytes, budgets, p, e + 1);
      GreedyStaysAhead(bytes[..e + 1], budgets, p[..e + 1]);
      GreedyAt(bytes, budgets, e);
    }
  }
}
