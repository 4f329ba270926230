/** Gathering shards into a session file and cutting a session file into shards, over any route
    (distributed.c, "Coordinator KV Payload API").  The main result is that the file does not depend on the
    route it was saved under. */
module KvTopology {
  import opened Words
  import opened KvPayload

  type Route = seq<Span>

  /** A route cuts the layers 0..nLayers - 1 into consecutive non-empty spans. */
  ghost predicate RouteValid(route: Route, nLayers: u32) {
    && route != [] && route[0].start == 0 && route[|route| - 1].end + 1 == nLayers
    && (forall i :: 0 <= i < |route| ==> route[i].start <= route[i].end < nLayers)
    && (forall i :: 0 <= i < |route| - 1 ==> route[i + 1].start == route[i].end + 1)
  }

  // ---------- Slices of a body ----------

  /** Bytes of the layers before layer k. */
  function Offset(e: Engine, p: Shard, k: nat): nat
    requires k <= |p.nComp| == |p.nIndex|
  {
    var t := TotalBytes(e, p.layout, 0, p.nComp, p.nIndex, k);
    if t.Some? then t.value else 0
  }

  /** p holds the layers 0..|p.nComp| - 1. */
  ghost predicate Prefix(e: Engine, p: Shard) {
    && 0 < |p.nComp| == |p.nIndex| <= p.layout.nLayers == e.nLayers
    && RawLiveValid(e, p.layout) && BodyOk(e, 0, p)
  }

  /** The part of p that belongs to the layers of s: their row counts and their tensors. */
  function Slice(e: Engine, p: Shard, s: Span): Shard
    requires |p.nComp| == |p.nIndex| && s.start <= s.end < |p.nComp|
  {
    var lo, hi := Offset(e, p, s.start), Offset(e, p, s.end + 1);
    Shard(p.layout, p.nComp[s.start..s.end + 1], p.nIndex[s.start..s.end + 1],
          if lo <= hi <= |p.tensors| then p.tensors[lo..hi] else [])
  }

  /** Sizes add up over consecutive layers: b holds the counts that a has from position i on. */
  lemma {:induction false} TotalSplit(e: Engine, l: Layout, first: nat, a1: seq<u32>, a2: seq<u32>, i: nat,
                                      b1: seq<u32>, b2: seq<u32>, j: nat)
    requires |a1| == |a2| && |b1| == |b2| && j <= |b1| && i + j <= |a1|
    requires a1[i..i + j] == b1[..j] && a2[i..i + j] == b2[..j]
    ensures var a, b := TotalBytes(e, l, first, a1, a2, i), TotalBytes(e, l, first + i, b1, b2, j);
      TotalBytes(e, l, first, a1, a2, i + j) == if a.Some? && b.Some? then Some(a.value + b.value) else None
  {
    if j > 0 {
      ShorterPart(a1, i, b1, j);
      ShorterPart(a2, i, b2, j);
      TotalSplit(e, l, first, a1, a2, i, b1, b2, j - 1);
    }
  }

  lemma {:induction false} ShorterPart<T>(a: seq<T>, i: nat, b: seq<T>, j: nat)
    requires 0 < j <= |b| && i + j <= |a| && a[i..i + j] == b[..j]
    ensures a[i..i + (j - 1)] == b[..j - 1] && a[i + (j - 1)] == b[j - 1]
  {
    assert a[i..i + (j - 1)] == a[i..i + j][..j - 1];
    assert a[i + (j - 1)] == a[i..i + j][j - 1];
  }

  lemma {:induction false} TotalGrows(e: Engine, l: Layout, first: nat, a: seq<u32>, b: seq<u32>, k: nat, n: nat)
    requires k <= n <= |a| == |b|
    ensures TotalBytes(e, l, first, a, b, n).Some? ==>
      TotalBytes(e, l, first, a, b, k).Some? && TotalBytes(e, l, first, a, b, k).value <= TotalBytes(e, l, first, a, b, n).value
  {
    if k < n {
      TotalGrows(e, l, first, a, b, k, n - 1);
    }
  }

  /** The offsets of a valid body increase up to its length ... */
  lemma {:induction false} OffsetsGrow(e: Engine, p: Shard, i: nat, j: nat)
    requires Prefix(e, p) && i <= j <= |p.nComp|
    ensures Offset(e, p, i) <= Offset(e, p, j) <= |p.tensors|
    ensures TotalBytes(e, p.layout, 0, p.nComp, p.nIndex, i) == Some(Offset(e, p, i))
    ensures TotalBytes(e, p.layout, 0, p.nComp, p.nIndex, j) == Some(Offset(e, p, j))
  {
    TotalGrows(e, p.layout, 0, p.nComp, p.nIndex, j, |p.nComp|);
    TotalGrows(e, p.layout, 0, p.nComp, p.nIndex, i, j);
  }

  lemma {:induction false} TotalOfPart(e: Engine, l: Layout, a: seq<u32>, b: seq<u32>, i: nat, j: nat)
    requires i <= j <= |a| == |b|
    requires TotalBytes(e, l, 0, a, b, i).Some? && TotalBytes(e, l, 0, a, b, j).Some?
    ensures TotalBytes(e, l, i, a[i..j], b[i..j], j - i)
         == Some(TotalBytes(e, l, 0, a, b, j).value - TotalBytes(e, l, 0, a, b, i).value)
  {
    var c, d := a[i..j], b[i..j];
    assert c[..j - i] == c && d[..j - i] == d;
    TotalSplit(e, l, 0, a, b, i, c, d, j - i);
  }

  /** ... and differ by the sizes between them. */
  lemma {:induction false} Offsets(e: Engine, p: Shard, i: nat, j: nat)
    requires Prefix(e, p) && i <= j <= |p.nComp|
    ensures Offset(e, p, i) <= Offset(e, p, j) <= |p.tensors|
    ensures TotalBytes(e, p.layout, i, p.nComp[i..j], p.nIndex[i..j], j - i) == Some(Offset(e, p, j) - Offset(e, p, i))
  {
    OffsetsGrow(e, p, i, j);
    TotalOfPart(e, p.layout, p.nComp, p.nIndex, i, j);
  }

  lemma {:induction false} OffsetEnds(e: Engine, p: Shard)
    requires Prefix(e, p)
    ensures Offset(e, p, 0) == 0 && Offset(e, p, |p.nComp|) == |p.tensors|
  {
  }

  lemma {:induction false} SliceIs(e: Engine, p: Shard, s: Span)
    requires Prefix(e, p) && s.start <= s.end < |p.nComp|
    ensures Offset(e, p, s.start) <= Offset(e, p, s.end + 1) <= |p.tensors|
    ensures Slice(e, p, s) == Shard(p.layout, p.nComp[s.start..s.end + 1], p.nIndex[s.start..s.end + 1],
                                    p.tensors[Offset(e, p, s.start)..Offset(e, p, s.end + 1)])
  {
    OffsetsGrow(e, p, s.start, s.end + 1);
  }

  lemma {:induction false} SliceValid(e: Engine, p: Shard, s: Span)
    requires Prefix(e, p) && s.start <= s.end < |p.nComp|
    ensures ShardValid(e, s, Slice(e, p, s))
  {
    SliceIs(e, p, s);
    Offsets(e, p, s.start, s.end + 1);
    BelowPart(p.nComp, s.start, s.end + 1, p.layout.compCap + 1);
    BelowPart(p.nIndex, s.start, s.end + 1, p.layout.compCap + 1);
  }

  lemma {:induction false} BelowPart(a: seq<u32>, i: nat, j: nat, limit: nat)
    requires i <= j <= |a| && Below(a, limit)
    ensures Below(a[i..j], limit)
  {
  }

  /** Two bodies that agree on the layers 0..k - 1. */
  ghost predicate Agree(e: Engine, p: Shard, q: Shard, k: nat) {
    && Prefix(e, p) && Prefix(e, q) && p.layout == q.layout && k <= |p.nComp| && k <= |q.nComp|
    && p.nComp[..k] == q.nComp[..k] && p.nIndex[..k] == q.nIndex[..k]
    && Offset(e, p, k) <= |p.tensors| && Offset(e, q, k) <= |q.tensors|
    && p.tensors[..Offset(e, p, k)] == q.tensors[..Offset(e, q, k)]
  }

  /** Such bodies have the same slices within those layers. */
  lemma {:induction false} SameSlices(e: Engine, p: Shard, q: Shard, k: nat, s: Span)
    requires Agree(e, p, q, k) && s.start <= s.end < k
    ensures Slice(e, p, s) == Slice(e, q, s)
  {
    SliceIs(e, p, s);
    SliceIs(e, q, s);
    SamePart(p.nComp, q.nComp, k, s.start, s.end + 1);
    SamePart(p.nIndex, q.nIndex, k, s.start, s.end + 1);
    SameTensors(e, p, q, k, s);
  }

  lemma {:induction false} SameTensors(e: Engine, p: Shard, q: Shard, k: nat, s: Span)
    requires Agree(e, p, q, k) && s.start <= s.end < k
    ensures var x, y := Offset(e, p, s.start), Offset(e, p, s.end + 1);
      && x == Offset(e, q, s.start) && y == Offset(e, q, s.end + 1) && x <= y
      && y <= |p.tensors| && y <= |q.tensors| && p.tensors[x..y] == q.tensors[x..y]
  {
    SameOffset(e, p, q, k, s.start);
    SameOffset(e, p, q, k, s.end + 1);
    SameOffset(e, p, q, k, k);
    OffsetsGrow(e, p, s.start, s.end + 1);
    OffsetsGrow(e, p, s.end + 1, k);
    SamePart(p.tensors, q.tensors, Offset(e, p, k), Offset(e, p, s.start), Offset(e, p, s.end + 1));
  }

  lemma {:induction false} SamePart<T>(a: seq<T>, b: seq<T>, k: nat, i: nat, j: nat)
    requires k <= |a| && k <= |b| && a[..k] == b[..k] && i <= j <= k
    ensures a[i..j] == b[i..j]
  {
    forall m | i <= m < j ensures a[m] == b[m] {
      assert a[m] == a[..k][m] && b[m] == b[..k][m];
    }
  }

  lemma {:induction false} SameOffset(e: Engine, p: Shard, q: Shard, k: nat, i: nat)
    requires Agree(e, p, q, k) && i <= k
    ensures Offset(e, p, i) == Offset(e, q, i)
  {
    SamePart(p.nComp, q.nComp, k, 0, i);
    SamePart(p.nIndex, q.nIndex, k, 0, i);
    assert q.nComp[..i] == q.nComp[0..i] && q.nIndex[..i] == q.nIndex[0..i];
    TotalSplit(e, p.layout, 0, p.nComp, p.nIndex, 0, q.nComp, q.nIndex, i);
  }

  /** Appending the next span to the slice 0..end gives the slice up to that span's end. */
  lemma {:induction false} SliceAppend(e: Engine, p: Shard, end: u32, s: Span)
    requires Prefix(e, p) && s.start == end + 1 && s.start <= s.end < |p.nComp|
    ensures Slice(e, p, Span(0, s.end)) == Join(Slice(e, p, Span(0, end)), Slice(e, p, s))
  {
    SliceIs(e, p, Span(0, s.end));
    SliceIs(e, p, Span(0, end));
    SliceIs(e, p, s);
    assert Slice(e, p, Span(0, end)).tensors == p.tensors[Offset(e, p, 0)..Offset(e, p, end + 1)];
    AppendParts(p, end + 1, s.end + 1, Offset(e, p, 0), Offset(e, p, end + 1), Offset(e, p, s.end + 1));
  }

  lemma {:induction false} AppendParts(p: Shard, m: nat, n: nat, x: nat, y: nat, z: nat)
    requires m <= n <= |p.nComp| == |p.nIndex| && x <= y <= z <= |p.tensors|
    ensures Shard(p.layout, p.nComp[0..n], p.nIndex[0..n], p.tensors[x..z])
         == Join(Shard(p.layout, p.nComp[0..m], p.nIndex[0..m], p.tensors[x..y]),
                 Shard(p.layout, p.nComp[m..n], p.nIndex[m..n], p.tensors[y..z]))
  {
    JoinParts(p.nComp, 0, m, n);
    JoinParts(p.nIndex, 0, m, n);
    JoinParts(p.tensors, x, y, z);
  }

  /** Two consecutive pieces end to end. */
  function Join(a: Shard, b: Shard): Shard {
    Shard(a.layout, a.nComp + b.nComp, a.nIndex + b.nIndex, a.tensors + b.tensors)
  }

  // ---------- Saving: what the gather loop computes ----------

  /** The first k shards end to end; None as soon as one does not parse or disagrees on the layout. */
  function Gather(e: Engine, route: Route, files: seq<seq<u8>>, k: nat): Option<Shard>
    requires 0 < k <= |route| == |files|
  {
    if k == 1 then ParseShard(e, files[0], route[0], None)
    else
      var g :- Gather(e, route, files, k - 1);
      var p :- ParseShard(e, files[k - 1], route[k - 1], Some(g.layout));
      Some(Join(g, p))
  }

  function SaveResult(e: Engine, route: Route, files: seq<seq<u8>>, tokens: seq<u32>, logits: seq<u8>): Option<seq<u8>>
    requires 0 < |route| == |files|
  {
    var g :- Gather(e, route, files, |route|);
    if g.layout.tokenCount != |tokens| then None
    else Some(SessionBytes(g.layout, e.vocab, tokens, logits, g.nComp, g.nIndex, g.tensors))
  }

  /** The shard files of a body under a route. */
  function ShardFiles(e: Engine, route: Route, p: Shard): (files: seq<seq<u8>>)
    requires |p.nComp| == |p.nIndex|
    requires forall i :: 0 <= i < |route| ==> route[i].start <= route[i].end < |p.nComp|
    ensures |files| == |route|
    ensures forall i :: 0 <= i < |route| ==> files[i] == ShardFile(route[i], Slice(e, p, route[i]))
  {
    seq(|route|, i requires 0 <= i < |route| => ShardFile(route[i], Slice(e, p, route[i])))
  }

  /** Loading: every shard gets its slice of the parsed session. */
  function LoadResult(e: Engine, route: Route, ctx: u32, b: seq<u8>): Option<seq<seq<u8>>>
    requires RouteValid(route, e.nLayers)
  {
    var s :- ParseSession(e, ctx, b);
    ParseSessionSound(e, ctx, b);
    Some(ShardFiles(e, route, s.body))
  }

  // ---------- Gathering inverts cutting ----------

  lemma {:induction false} GatherComplete(e: Engine, route: Route, p: Shard, k: nat)
    requires RouteValid(route, e.nLayers) && Prefix(e, p) && |p.nComp| == e.nLayers
    requires 0 < k <= |route|
    ensures Gather(e, route, ShardFiles(e, route, p), k) == Some(Slice(e, p, Span(0, route[k - 1].end)))
  {
    var s := route[k - 1];
    SliceValid(e, p, s);
    if k == 1 {
      ParseShardComplete(e, s, None, Slice(e, p, s));
    } else {
      GatherComplete(e, route, p, k - 1);
      assert route[k - 2 + 1].start == route[k - 2].end + 1;
      ParseShardComplete(e, s, Some(p.layout), Slice(e, p, s));
      SliceAppend(e, p, route[k - 2].end, s);
    }
  }

  /** files[i] is the shard file of span i of body p. */
  ghost predicate CutFrom(e: Engine, route: Route, files: seq<seq<u8>>, p: Shard, i: nat) {
    && i < |route| == |files| && |p.nComp| == |p.nIndex| && route[i].start <= route[i].end < |p.nComp|
    && files[i] == ShardFile(route[i], Slice(e, p, route[i]))
  }

  /** g is a body whose slices are the first k shard files. */
  ghost predicate Gathered(e: Engine, route: Route, files: seq<seq<u8>>, k: nat, g: Shard) {
    && 0 < k <= |route| && Prefix(e, g) && |g.nComp| == route[k - 1].end + 1
    && forall i :: 0 <= i < k ==> CutFrom(e, route, files, g, i)
  }

  /** Whatever parses as shards of a route is a cutting of one body: the gathered one. */
  lemma {:induction false} GatherSound(e: Engine, route: Route, files: seq<seq<u8>>, k: nat)
    requires RouteValid(route, e.nLayers) && |files| == |route| && 0 < k <= |route|
    ensures var r := Gather(e, route, files, k); r.Some? ==> Gathered(e, route, files, k, r.value)
  {
    if k == 1 {
      ParseShardSound(e, files[0], route[0], None);
      var r := ParseShard(e, files[0], route[0], None);
      if r.Some? {
        GatherFirst(e, route, files, r.value);
      }
    } else {
      GatherSound(e, route, files, k - 1);
      var q := Gather(e, route, files, k - 1);
      if q.Some? {
        GatherNext(e, route, files, k, q.value);
      }
    }
  }

  lemma {:induction false} GatherFirst(e: Engine, route: Route, files: seq<seq<u8>>, p: Shard)
    requires RouteValid(route, e.nLayers) && |files| == |route|
    requires ShardValid(e, route[0], p) && files[0] == ShardFile(route[0], p)
    ensures Gathered(e, route, files, 1, p)
  {
    WholeSlice(e, p);
    assert route[0] == Span(0, |p.nComp| - 1);
    assert CutFrom(e, route, files, p, 0);
  }

  lemma {:induction false} GatherNext(e: Engine, route: Route, files: seq<seq<u8>>, k: nat, q: Shard)
    requires RouteValid(route, e.nLayers) && |files| == |route| && 1 < k <= |route|
    requires Gathered(e, route, files, k - 1, q)
    ensures var r := ParseShard(e, files[k - 1], route[k - 1], Some(q.layout));
      r.Some? ==> Gathered(e, route, files, k, Join(q, r.value))
  {
    var s := route[k - 1];
    assert route[k - 2 + 1].start == route[k - 2].end + 1;
    ParseShardSound(e, files[k - 1], s, Some(q.layout));
    var r := ParseShard(e, files[k - 1], s, Some(q.layout));
    if r.Some? {
      JoinPrefix(e, q, r.value, s);
      JoinValid(e, q, r.value, s);
      JoinSlice(e, q, r.value, s);
      forall i | 0 <= i < k - 1 ensures CutFrom(e, route, files, Join(q, r.value), i) {
        SameCut(e, route, files, q, Join(q, r.value), i);
      }
    }
  }

  lemma {:induction false} SameCut(e: Engine, route: Route, files: seq<seq<u8>>, q: Shard, g: Shard, i: nat)
    requires Agree(e, q, g, |q.nComp|) && CutFrom(e, route, files, q, i)
    ensures CutFrom(e, route, files, g, i)
  {
    SameSlices(e, q, g, |q.nComp|, route[i]);
  }

  lemma {:induction false} WholeSlice(e: Engine, p: Shard)
    requires Prefix(e, p)
    ensures Slice(e, p, Span(0, |p.nComp| - 1)) == p
  {
    OffsetEnds(e, p);
    assert p.nComp[0..|p.nComp|] == p.nComp && p.nIndex[0..|p.nComp|] == p.nIndex;
  }

  lemma {:induction false} JoinTotals(e: Engine, l: Layout, a1: seq<u32>, a2: seq<u32>, b1: seq<u32>, b2: seq<u32>)
    requires |a1| == |a2| && |b1| == |b2|
    requires TotalBytes(e, l, 0, a1, a2, |a1|).Some? && TotalBytes(e, l, |a1|, b1, b2, |b1|).Some?
    ensures TotalBytes(e, l, 0, a1 + b1, a2 + b2, |a1|) == TotalBytes(e, l, 0, a1, a2, |a1|)
    ensures TotalBytes(e, l, 0, a1 + b1, a2 + b2, |a1| + |b1|)
         == Some(TotalBytes(e, l, 0, a1, a2, |a1|).value + TotalBytes(e, l, |a1|, b1, b2, |b1|).value)
  {
    hide TotalBytes;
    var n := |a1|;
    var c1, c2 := a1 + b1, a2 + b2;
    TotalZero(e, l, c1, c2);
    ConcatParts(a1, b1);
    ConcatParts(a2, b2);
    TotalSplit(e, l, 0, c1, c2, 0, a1, a2, n);
    TotalSplit(e, l, 0, c1, c2, n, b1, b2, |b1|);
  }

  lemma {:induction false} TotalZero(e: Engine, l: Layout, a1: seq<u32>, a2: seq<u32>)
    requires |a1| == |a2|
    ensures TotalBytes(e, l, 0, a1, a2, 0) == Some(0)
  {
  }

  lemma {:induction false} ConcatParts<T>(a: seq<T>, b: seq<T>)
    ensures (a + b)[0..0 + |a|] == a[..|a|] && (a + b)[|a|..|a| + |b|] == b[..|b|]
  {
  }

  lemma {:induction false} BelowConcat(a: seq<u32>, b: seq<u32>, limit: nat)
    requires Below(a, limit) && Below(b, limit)
    ensures Below(a + b, limit)
  {
  }

  /** Joining a body of layers 0..s.start - 1 with a shard of s gives a body ... */
  lemma {:induction false} JoinPrefix(e: Engine, q: Shard, p: Shard, s: Span)
    requires Prefix(e, q) && ShardValid(e, s, p) && p.layout == q.layout && |q.nComp| == s.start
    ensures Prefix(e, Join(q, p)) && |Join(q, p).nComp| == s.end + 1
    ensures Offset(e, Join(q, p), s.start) == |q.tensors|
  {
    JoinTotals(e, q.layout, q.nComp, q.nIndex, p.nComp, p.nIndex);
    BelowConcat(q.nComp, p.nComp, q.layout.compCap + 1);
    BelowConcat(q.nIndex, p.nIndex, q.layout.compCap + 1);
  }

  /** ... that agrees with the first ... */
  lemma {:induction false} JoinValid(e: Engine, q: Shard, p: Shard, s: Span)
    requires Prefix(e, q) && ShardValid(e, s, p) && p.layout == q.layout && |q.nComp| == s.start
    ensures Agree(e, q, Join(q, p), s.start)
  {
    JoinPrefix(e, q, p, s);
    OffsetEnds(e, q);
    var g := Join(q, p);
    assert g.nComp[..s.start] == q.nComp[..s.start] && g.nIndex[..s.start] == q.nIndex[..s.start];
    assert g.tensors[..|q.tensors|] == q.tensors[..|q.tensors|];
  }

  /** ... and whose slice at s is the second. */
  lemma {:induction false} JoinSlice(e: Engine, q: Shard, p: Shard, s: Span)
    requires Prefix(e, q) && ShardValid(e, s, p) && p.layout == q.layout && |q.nComp| == s.start
    ensures s.end < |Join(q, p).nComp| == |Join(q, p).nIndex| && Slice(e, Join(q, p), s) == p
  {
    JoinPrefix(e, q, p, s);
    var g := Join(q, p);
    OffsetEnds(e, g);
    assert g.nComp[s.start..s.end + 1] == p.nComp && g.nIndex[s.start..s.end + 1] == p.nIndex;
    assert g.tensors[|q.tensors|..|g.tensors|] == p.tensors;
  }

  // ---------- Topology neutrality ----------

  /** p is a body with all layers, and files are its shard files under the route. */
  ghost predicate IsCutting(e: Engine, route: Route, files: seq<seq<u8>>, p: Shard) {
    && Prefix(e, p) && |p.nComp| == e.nLayers
    && forall i :: 0 <= i < |route| ==> CutFrom(e, route, files, p, i)
  }

  lemma {:induction false} CuttingIsShardFiles(e: Engine, route: Route, files: seq<seq<u8>>, p: Shard)
    requires RouteValid(route, e.nLayers) && |files| == |route| && Prefix(e, p) && |p.nComp| == e.nLayers
    ensures IsCutting(e, route, files, p) <==> files == ShardFiles(e, route, p)
  {
    if files == ShardFiles(e, route, p) {
      forall i | 0 <= i < |route| ensures CutFrom(e, route, files, p, i) {}
    }
    if IsCutting(e, route, files, p) {
      forall i | 0 <= i < |route| ensures files[i] == ShardFiles(e, route, p)[i] {
        assert CutFrom(e, route, files, p, i);
      }
    }
  }

  /** In fields: the shard files are the cutting of a whole body exactly when they are its slices, and the body has the
      engine's layers, live rows as tokens and window allow, counts within the cap, and the tensor bytes of its layers. */
  lemma {:induction false} CuttingInFields(e: Engine, route: Route, files: seq<seq<u8>>, p: Shard)
    requires RouteValid(route, e.nLayers) && |files| == |route| && |p.nComp| == |p.nIndex| == e.nLayers
    ensures var l := p.layout; IsCutting(e, route, files, p) <==>
      && l.nLayers == e.nLayers && l.rawWindow != 0 && l.rawCap != 0
      && l.rawLive <= l.tokenCount && l.rawLive <= l.rawWindow && l.rawLive <= l.rawCap
      && (e.glm || l.rawLive == l.tokenCount || l.rawLive == l.rawWindow)
      && (forall i :: 0 <= i < |p.nComp| ==> p.nComp[i] <= l.compCap)
      && (forall i :: 0 <= i < |p.nIndex| ==> p.nIndex[i] <= l.compCap)
      && TotalBytes(e, l, 0, p.nComp, p.nIndex, e.nLayers) == Some(|p.tensors|)
      && (forall i :: 0 <= i < |route| ==> route[i].start <= route[i].end < |p.nComp|) && files == ShardFiles(e, route, p)
  {
    hide TotalBytes, ShardFiles, CutFrom;
    if Prefix(e, p) {
      CuttingIsShardFiles(e, route, files, p);
    }
  }

  /** Saving succeeds exactly when the shard files are the cutting of one body with the right token count ... */
  lemma {:induction false} SaveSucceeds(e: Engine, route: Route, files: seq<seq<u8>>, tokens: seq<u32>, logits: seq<u8>)
    requires RouteValid(route, e.nLayers) && |files| == |route|
    ensures SaveResult(e, route, files, tokens, logits).Some? <==>
            exists p :: IsCutting(e, route, files, p) && p.layout.tokenCount == |tokens|
  {
    hide Gather, IsCutting, SessionBytes;
    var r := Gather(e, route, files, |route|);
    GatheredIsCutting(e, route, files);
    forall p | IsCutting(e, route, files, p) ensures r == Some(p) {
      CuttingIsGathered(e, route, files, p);
    }
  }

  lemma {:induction false} GatheredIsCutting(e: Engine, route: Route, files: seq<seq<u8>>)
    requires RouteValid(route, e.nLayers) && |files| == |route|
    ensures var r := Gather(e, route, files, |route|); r.Some? ==> IsCutting(e, route, files, r.value)
  {
    hide Gather, CutFrom, Prefix;
    GatherSound(e, route, files, |route|);
  }

  lemma {:induction false} CuttingIsGathered(e: Engine, route: Route, files: seq<seq<u8>>, p: Shard)
    requires RouteValid(route, e.nLayers) && |files| == |route| && IsCutting(e, route, files, p)
    ensures Gather(e, route, files, |route|) == Some(p)
  {
    hide Gather, CutFrom, Prefix, ShardFiles, Slice;
    CuttingIsShardFiles(e, route, files, p);
    GatherComplete(e, route, p, |route|);
    WholeSlice(e, p);
  }

  /** ... and the file it writes is that body's session file, whatever the route. */
  lemma {:induction false} SaveIsRouteFree(e: Engine, route: Route, files: seq<seq<u8>>, p: Shard, tokens: seq<u32>, logits: seq<u8>)
    requires RouteValid(route, e.nLayers) && |files| == |route|
    requires IsCutting(e, route, files, p) && p.layout.tokenCount == |tokens|
    ensures SaveResult(e, route, files, tokens, logits) == Some(SessionFile(e, Session(tokens, logits, p)))
  {
    hide Gather, IsCutting, RouteValid;
    CuttingIsGathered(e, route, files, p);
  }

  /** Loading a session file is accepted exactly when it fits the loading session, and gives each shard its slice. */
  lemma {:induction false} LoadOfSave(e: Engine, route: Route, ctx: u32, s: Session)
    requires RouteValid(route, e.nLayers)
    requires Prefix(e, s.body) && |s.body.nComp| == e.nLayers
    requires |s.tokens| == s.body.layout.tokenCount && |s.logits| == 4 * e.vocab
    ensures LoadResult(e, route, ctx, SessionFile(e, s)) ==
            if Fits(e, ctx, s.body.layout, s.tokens) then Some(ShardFiles(e, route, s.body)) else None
  {
    if Fits(e, ctx, s.body.layout, s.tokens) {
      ParseSessionComplete(e, ctx, s);
    } else {
      LoadNeedsFit(e, ctx, s);
    }
  }

  predicate Fits(e: Engine, ctx: u32, l: Layout, tokens: seq<u32>) {
    l.ctx <= ctx && l.tokenCount < ctx && Below(tokens, e.vocab)
  }

  /** Save under one route, load under another.  The load is accepted exactly when the file fits the loading
      session (context size and vocabulary); each shard then receives its own slice of the saved body, saving
      again under the second route gives the same file, and under the same route every shard file is
      reproduced byte for byte. */
  lemma {:induction false} TopologyNeutral(
      e: Engine, saveRoute: Route, loadRoute: Route, ctx: u32,
      files: seq<seq<u8>>, tokens: seq<u32>, logits: seq<u8>, file: seq<u8>)
    returns (body: Shard)
    requires RouteValid(saveRoute, e.nLayers) && RouteValid(loadRoute, e.nLayers) && |files| == |saveRoute|
    requires |logits| == 4 * e.vocab
    requires SaveResult(e, saveRoute, files, tokens, logits) == Some(file)
    ensures IsCutting(e, saveRoute, files, body)
    ensures LoadResult(e, loadRoute, ctx, file).Some? <==> Fits(e, ctx, body.layout, tokens)
    ensures var loaded := LoadResult(e, loadRoute, ctx, file); loaded.Some? ==>
      && IsCutting(e, loadRoute, loaded.value, body)
      && SaveResult(e, loadRoute, loaded.value, tokens, logits) == Some(file)
      && (loadRoute == saveRoute ==> loaded.value == files)
  {
    SaveSucceeds(e, saveRoute, files, tokens, logits);
    body :| IsCutting(e, saveRoute, files, body) && body.layout.tokenCount == |tokens|;
    SaveIsRouteFree(e, saveRoute, files, body, tokens, logits);
    LoadOfSave(e, loadRoute, ctx, Session(tokens, logits, body));
    var again := ShardFiles(e, loadRoute, body);
    CuttingIsShardFiles(e, loadRoute, again, body);
    SaveIsRouteFree(e, loadRoute, again, body, tokens, logits);
    CuttingIsShardFiles(e, saveRoute, files, body);
  }

  /** A saved file that does not fit the loading session is refused. */
  lemma {:induction false} LoadNeedsFit(e: Engine, ctx: u32, s: Session)
    requires Prefix(e, s.body) && |s.body.nComp| == e.nLayers
    requires |s.tokens| == s.body.layout.tokenCount && |s.logits| == 4 * e.vocab
    requires !SessionValid(e, ctx, s)
    ensures ParseSession(e, ctx, SessionFile(e, s)).None?
  {
    var r := ParseSession(e, ctx, SessionFile(e, s));
    if r.Some? {
      ParseSessionSound(e, ctx, SessionFile(e, s));
      SessionFileInjective(e, s, r.value);
      assert false;
    }
  }

  /** Two sessions with the same file are the same session. */
  lemma {:induction false} SessionFileInjective(e: Engine, s: Session, t: Session)
    requires SessionFile(e, s) == SessionFile(e, t)
    requires |s.tokens| == s.body.layout.tokenCount && |s.logits| == 4 * e.vocab
    requires |s.body.nComp| == |s.body.nIndex| == e.nLayers && s.body.layout.nLayers == e.nLayers && BodyOk(e, 0, s.body)
    requires RawLiveValid(e, s.body.layout)
    requires |t.tokens| == t.body.layout.tokenCount && |t.logits| == 4 * e.vocab
    requires |t.body.nComp| == |t.body.nIndex| == e.nLayers && t.body.layout.nLayers == e.nLayers && BodyOk(e, 0, t.body)
    ensures s == t
  {
    var b := SessionFile(e, s);
    var hs, ht := SessionHeader(s.body.layout, e.vocab), SessionHeader(t.body.layout, e.vocab);
    var tailS := s.logits + (Le32s(s.body.nComp + s.body.nIndex) + s.body.tensors);
    var tailT := t.logits + (Le32s(t.body.nComp + t.body.nIndex) + t.body.tensors);
    WordsThenRest(b, hs + s.tokens, tailS);
    WordsThenRest(b, ht + t.tokens, tailT);
    FirstWords(b, |hs + s.tokens|, SESSION_WORDS);
    FirstWords(b, |ht + t.tokens|, SESSION_WORDS);
    assert (hs + s.tokens)[..SESSION_WORDS] == hs && (ht + t.tokens)[..SESSION_WORDS] == ht;
    SameHeader(s.body.layout, t.body.layout, e.vocab);
    assert s.tokens == (hs + s.tokens)[SESSION_WORDS..] == t.tokens;
    ParseTailIff(e, s.body.layout, tailS, s.logits, s.body);
    ParseTailIff(e, t.body.layout, tailT, t.logits, t.body);
  }

  lemma {:induction false} SameHeader(l: Layout, m: Layout, vocab: u32)
    ensures SessionHeader(l, vocab) == SessionHeader(m, vocab) ==> l == m
  {
    var h, k := SessionHeader(l, vocab), SessionHeader(m, vocab);
    if h == k {
      assert SessionLayout(h) == l && SessionLayout(k) == m;
    }
  }
}
