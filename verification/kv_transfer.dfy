/** The coordinator's save and load loops (distributed.c:4692-5042, 5088-5388), each proved to compute the
    function that KvTopology reasons about. */
module KvTransfer {
  import opened Words
  import opened KvPayload
  import opened KvTopology

  /** dist_kv_route_validate: local span first, then the hops of the plan. */
  method ValidateRoute(local: Span, hops: seq<Span>, nLayers: u32) returns (ok: bool)
    ensures ok <==> RouteValid([local] + hops, nLayers)
  {
    ghost var route := [local] + hops;
    if nLayers == 0 || local.start != 0 || local.end >= nLayers { return false; }
    var prev := local.end;
    for i := 0 to |hops|
      invariant prev == route[i].end < nLayers
      invariant forall k :: 0 <= k <= i ==> route[k].start <= route[k].end < nLayers
      invariant forall k :: 0 <= k < i ==> route[k + 1].start == route[k].end + 1
    {
      assert hops[i] == route[i + 1];
      if prev == U32_LIMIT - 1 || hops[i].start != prev + 1 || hops[i].end < hops[i].start || hops[i].end >= nLayers {
        return false;
      }
      prev := hops[i].end;
    }
    return prev + 1 == nLayers;
  }

  // ---------- Reading words ----------

  method ReadWords(b: seq<u8>, n: nat) returns (r: Option<seq<u32>>)
    ensures r == if 4 * n <= |b| then Some(FromLe32s(b, n)) else None
  {
    var words: seq<u32> := [];
    for i := 0 to n
      invariant 4 * i <= |b| && words == FromLe32s(b, i)
    {
      if |b| < 4 * i + 4 { return None; }
      NextWord(b, i);
      words := words + [FromLe32(b[4 * i..4 * i + 4])];
    }
    return Some(words);
  }

  /** n words, each checked against its limit as it is read: row counts against the cap, tokens against the vocabulary. */
  method ReadBounded(b: seq<u8>, n: nat, limit: nat) returns (r: Option<seq<u32>>)
    ensures r == if 4 * n <= |b| && Below(FromLe32s(b, n), limit) then Some(FromLe32s(b, n)) else None
  {
    var words: seq<u32> := [];
    for i := 0 to n
      invariant 4 * i <= |b| && words == FromLe32s(b, i) && Below(words, limit)
    {
      if |b| < 4 * i + 4 { return None; }
      var v := FromLe32(b[4 * i..4 * i + 4]);
      if v >= limit {
        NotBelow(b, n, i, limit);
        return None;
      }
      NextWord(b, i);
      words := words + [v];
    }
    return Some(words);
  }

  lemma {:induction false} NextWord(b: seq<u8>, i: nat)
    requires 4 * i + 4 <= |b|
    ensures FromLe32s(b, i + 1) == FromLe32s(b, i) + [FromLe32(b[4 * i..4 * i + 4])]
  {
  }

  lemma {:induction false} NotBelow(b: seq<u8>, n: nat, i: nat, limit: nat)
    requires i < n && 4 * i + 4 <= |b| && FromLe32(b[4 * i..4 * i + 4]) >= limit
    ensures 4 * n <= |b| ==> !Below(FromLe32s(b, n), limit)
  {
    assert 4 * n <= |b| ==> FromLe32s(b, n)[i] == FromLe32(b[4 * i..4 * i + 4]);
  }

  // ---------- Parsing one shard ----------

  /** The accumulated tensor size of consecutive layers, with the 64-bit overflow test of dist_u64_add. */
  method SumLayers(e: Engine, l: Layout, first: nat, nComp: seq<u32>, nIndex: seq<u32>) returns (r: Option<u64>)
    requires |nComp| == |nIndex|
    ensures var t := TotalBytes(e, l, first, nComp, nIndex, |nComp|);
      r == if t.Some? && t.value < U64_LIMIT then Some(t.value) else None
  {
    var sum: u64 := 0;
    for i := 0 to |nComp|
      invariant TotalBytes(e, l, first, nComp, nIndex, i) == Some(sum)
    {
      var bytes := e.layerBytes(l, first + i, nComp[i], nIndex[i]);
      TotalGrows(e, l, first, nComp, nIndex, i + 1, |nComp|);
      if bytes.None? || sum > U64_LIMIT - 1 - bytes.value { return None; }
      sum := sum + bytes.value;
    }
    return Some(sum);
  }

  /** dist_kv_parse_layer_payload. */
  method ParseLayerPayload(e: Engine, file: seq<u8>, s: Span, given: Option<Layout>) returns (r: Option<Shard>)
    requires |file| < U64_LIMIT
    ensures r == ParseShard(e, file, s, given)
  {
    hide LayerHeaderOk, LayerLayout, FromLe32s, Below, TotalBytes;
    HeaderSpan(e, file, s, given);
    var h := ReadWords(file, LAYER_WORDS);
    if h.None? || !LayerHeaderOk(e, h.value, s, given) { return None; }
    var l, m, b := LayerLayout(h.value), s.end - s.start + 1, file[4 * LAYER_WORDS..];
    TwoRuns(b, m);
    var nComp := ReadBounded(b, m, l.compCap + 1);
    if nComp.None? { return None; }
    var nIndex := ReadBounded(b[4 * m..], m, l.compCap + 1);
    if nIndex.None? { return None; }
    var p := Shard(l, nComp.value, nIndex.value, b[4 * (2 * m)..]);
    var expected := SumLayers(e, l, s.start, p.nComp, p.nIndex);
    return if expected == Some(|p.tensors|) then Some(p) else None;
  }

  lemma {:induction false} HeaderSpan(e: Engine, file: seq<u8>, s: Span, given: Option<Layout>)
    ensures |file| >= 4 * LAYER_WORDS && LayerHeaderOk(e, FromLe32s(file, LAYER_WORDS), s, given) ==> s.start <= s.end
  {
    hide FromLe32s;
  }

  /** Reading m words and then m more is reading 2 * m words. */
  lemma {:induction false} TwoRuns(b: seq<u8>, m: nat)
    ensures 4 * (2 * m) <= |b| ==>
      && FromLe32s(b, 2 * m)[..m] == FromLe32s(b, m)
      && FromLe32s(b, 2 * m)[m..] == FromLe32s(b[4 * m..], m)
  {
    if 4 * (2 * m) <= |b| {
      LaterWords(b, m, m);
      FirstWords(b, 2 * m, m);
      assert m + m == 2 * m;
    }
  }

  lemma {:induction false} LaterWords(b: seq<u8>, k: nat, n: nat)
    requires 4 * k <= |b|
    ensures 4 * (k + n) <= |b| ==> FromLe32s(b, k + n)[k..] == FromLe32s(b[4 * k..], n)
  {
    if 4 * (k + n) <= |b| {
      forall i | 0 <= i < n ensures FromLe32s(b, k + n)[k..][i] == FromLe32s(b[4 * k..], n)[i] {
        ShiftPart(b, 4 * k, 4 * i, 4 * i + 4);
      }
    }
  }

  lemma {:induction false} ShiftPart<T>(a: seq<T>, k: nat, i: nat, j: nat)
    requires i <= j && k + j <= |a|
    ensures a[k..][i..j] == a[k + i..k + j]
  {
  }

  // ---------- Saving ----------

  method WriteWords(out: seq<u8>, words: seq<u32>) returns (out': seq<u8>)
    ensures out' == out + Le32s(words)
  {
    out' := out;
    for i := 0 to |words|
      invariant out' == out + Le32s(words[..i])
    {
      out' := out' + Le32(words[i]);
      assert words[..i + 1][..i] == words[..i];
    }
    assert words[..|words|] == words;
  }

  /** ds4_dist_session_save_payload, with the shard files already fetched from the route's workers. */
  method SavePayload(e: Engine, route: Route, files: seq<seq<u8>>, tokens: seq<u32>, logits: seq<u8>)
    returns (r: Option<seq<u8>>)
    requires RouteValid(route, e.nLayers) && |files| == |route| && |tokens| < U32_LIMIT
    requires forall i :: 0 <= i < |files| ==> |files[i]| < U64_LIMIT
    ensures r == SaveResult(e, route, files, tokens, logits)
  {
    var all := ParseLayerPayload(e, files[0], route[0], None);
    for k := 1 to |route|
      invariant all == Gather(e, route, files, k)
    {
      GatherMono(e, route, files, k);
      if all.None? { return None; }
      var p := ParseLayerPayload(e, files[k], route[k], Some(all.value.layout));
      all := if p.Some? then Some(KvTopology.Join(all.value, p.value)) else None;
    }
    if all.None? || all.value.layout.tokenCount != |tokens| { return None; }
    var out := WriteSession(e, all.value, tokens, logits);
    return Some(out);
  }

  method WriteSession(e: Engine, p: Shard, tokens: seq<u32>, logits: seq<u8>) returns (out: seq<u8>)
    ensures out == SessionBytes(p.layout, e.vocab, tokens, logits, p.nComp, p.nIndex, p.tensors)
  {
    hide Le32s, SessionHeader;
    var h := SessionHeader(p.layout, e.vocab);
    out := WriteWords([], h);
    out := WriteWords(out, tokens);
    Le32sConcat(h, tokens);
    ghost var front := Le32s(h + tokens);
    assert out == front;
    out := out + logits;
    out := WriteWords(out, p.nComp);
    out := WriteWords(out, p.nIndex);
    Le32sConcat(p.nComp, p.nIndex);
    ghost var counts := Le32s(p.nComp + p.nIndex);
    Associate(front + logits, Le32s(p.nComp), Le32s(p.nIndex));
    out := out + p.tensors;
    Associate(front + logits, counts, p.tensors);
    Associate(front, logits, counts + p.tensors);
  }

  /** If an earlier shard fails, the whole gather fails. */
  lemma {:induction false} GatherMono(e: Engine, route: Route, files: seq<seq<u8>>, k: nat)
    requires 0 < k <= |route| == |files|
    ensures Gather(e, route, files, k).None? ==> Gather(e, route, files, |route|).None?
    decreases |route| - k
  {
    if k < |route| {
      GatherMono(e, route, files, k + 1);
    }
  }

  // ---------- Loading ----------

  /** Copy the tensors of the layers of s, layer after layer, from offset pos on. */
  method CopyLayers(e: Engine, p: Shard, s: Span, pos: nat) returns (r: Option<nat>)
    requires |p.nComp| == |p.nIndex| && s.start <= s.end < |p.nComp|
    requires pos <= |p.tensors| && UpTo(e, p, s.start) == Some(pos)
    ensures r == if UpTo(e, p, s.end + 1).Some? && UpTo(e, p, s.end + 1).value <= |p.tensors|
                 then UpTo(e, p, s.end + 1) else None
    ensures r.Some? ==> pos <= r.value
  {
    var at := pos;
    for il := s.start to s.end + 1
      invariant pos <= at <= |p.tensors| && UpTo(e, p, il) == Some(at)
    {
      UpToNext(e, p, il, s.end + 1);
      var bytes := e.layerBytes(p.layout, il, p.nComp[il], p.nIndex[il]);
      if bytes.None? || bytes.value > |p.tensors| - at { return None; }
      at := at + bytes.value;
    }
    return Some(at);
  }

  /** Bytes of the layers before k, if none of their sizes overflows. */
  function UpTo(e: Engine, p: Shard, k: nat): Option<nat>
    requires k <= |p.nComp| == |p.nIndex|
  {
    TotalBytes(e, p.layout, 0, p.nComp, p.nIndex, k)
  }

  lemma {:induction false} UpToNext(e: Engine, p: Shard, il: nat, end: nat)
    requires il < end <= |p.nComp| == |p.nIndex|
    ensures var x, y := UpTo(e, p, il), e.layerBytes(p.layout, il, p.nComp[il], p.nIndex[il]);
      UpTo(e, p, il + 1) == if x.Some? && y.Some? then Some(x.value + y.value) else None
    ensures UpTo(e, p, end).Some? ==> UpTo(e, p, il + 1).Some? && UpTo(e, p, il + 1).value <= UpTo(e, p, end).value
  {
    TotalGrows(e, p.layout, 0, p.nComp, p.nIndex, il + 1, end);
  }

  /** dist_prepare_shard_from_session_payload: layer header and counts, then the layers' tensors. */
  method WriteShard(e: Engine, p: Shard, s: Span, pos: nat, end: nat) returns (out: seq<u8>)
    requires |p.nComp| == |p.nIndex| && s.start <= s.end < |p.nComp| && pos <= end <= |p.tensors|
    requires UpTo(e, p, s.start) == Some(pos) && UpTo(e, p, s.end + 1) == Some(end)
    ensures out == ShardFile(s, Slice(e, p, s))
  {
    SliceFrom(e, p, s, pos, end);
    var q := Shard(p.layout, p.nComp[s.start..s.end + 1], p.nIndex[s.start..s.end + 1], p.tensors[pos..end]);
    out := WritePiece(s, q);
  }

  lemma {:induction false} SliceFrom(e: Engine, p: Shard, s: Span, pos: nat, end: nat)
    requires |p.nComp| == |p.nIndex| && s.start <= s.end < |p.nComp| && pos <= end <= |p.tensors|
    requires UpTo(e, p, s.start) == Some(pos) && UpTo(e, p, s.end + 1) == Some(end)
    ensures Slice(e, p, s) ==
            Shard(p.layout, p.nComp[s.start..s.end + 1], p.nIndex[s.start..s.end + 1], p.tensors[pos..end])
  {
  }

  method WritePiece(s: Span, q: Shard) returns (out: seq<u8>)
    ensures out == ShardFile(s, q)
  {
    out := WriteWords([], LayerHeader(q.layout, s));
    ghost var h := out;
    out := WriteWords(out, q.nComp);
    out := WriteWords(out, q.nIndex);
    Le32sConcat(q.nComp, q.nIndex);
    assert out == h + Le32s(q.nComp + q.nIndex);
    out := out + q.tensors;
  }

  /** One shard: copy its layers and write its file; None if a size overflows or the payload is too short. */
  method CutShard(e: Engine, p: Shard, s: Span, pos: nat) returns (r: Option<(seq<u8>, nat)>)
    requires |p.nComp| == |p.nIndex| && s.start <= s.end < |p.nComp|
    requires pos <= |p.tensors| && UpTo(e, p, s.start) == Some(pos)
    ensures r.Some? <==> UpTo(e, p, s.end + 1).Some? && UpTo(e, p, s.end + 1).value <= |p.tensors|
    ensures r.Some? ==> r.value.0 == ShardFile(s, Slice(e, p, s)) && UpTo(e, p, s.end + 1) == Some(r.value.1)
  {
    var end := CopyLayers(e, p, s, pos);
    if end.None? { return None; }
    var shard := WriteShard(e, p, s, pos, end.value);
    return Some((shard, end.value));
  }

  /** The tensors left in the payload hold the layers up to the end of the span. */
  predicate Cuttable(e: Engine, p: Shard, s: Span)
    requires s.end < |p.nComp| == |p.nIndex|
  {
    UpTo(e, p, s.end + 1).Some? && UpTo(e, p, s.end + 1).value <= |p.tensors|
  }

  ghost predicate SpansIn(route: Route, p: Shard) {
    |p.nComp| == |p.nIndex| && forall i :: 0 <= i < |route| ==> route[i].start <= route[i].end < |p.nComp|
  }

  /** The sessions that were loaded when the shard loop ended: exactly the first spans, up to the first whose shard the
      payload is too short for or whose session refuses it, each with its slice. */
  ghost predicate LoadedUpTo(e: Engine, route: Route, p: Shard, accepts: nat -> bool, loaded: seq<seq<u8>>)
    requires SpansIn(route, p)
  {
    && loaded <= ShardFiles(e, route, p)
    && (forall k :: 0 <= k < |loaded| ==> Cuttable(e, p, route[k]) && accepts(k))
    && (|loaded| < |route| ==> !Cuttable(e, p, route[|loaded|]) || !accepts(|loaded|))
  }

  /** The shard loop of the load: cut a shard, load it into its session, go on to the next.  accepts says which session
      takes its shard. */
  method LoadShards(e: Engine, route: Route, p: Shard, accepts: nat -> bool) returns (loaded: seq<seq<u8>>, pos: nat)
    requires RouteValid(route, e.nLayers) && |p.nComp| == |p.nIndex| == e.nLayers
    ensures SpansIn(route, p) && LoadedUpTo(e, route, p, accepts, loaded)
    ensures |loaded| == |route| ==> UpTo(e, p, e.nLayers) == Some(pos) && pos <= |p.tensors|
  {
    hide UpTo, Slice, ShardFile, ShardFiles, Start;
    ghost var files := ShardFiles(e, route, p);
    StartZero(route);
    UpToZero(e, p);
    loaded, pos := [], 0;
    var covered: nat := 0;
    for k := 0 to |route|
      invariant pos <= |p.tensors| && |loaded| == k && loaded == files[..k]
      invariant covered == Start(route, k) <= e.nLayers && UpTo(e, p, covered) == Some(pos)
      invariant forall i :: 0 <= i < k ==> Cuttable(e, p, route[i]) && accepts(i)
    {
      StartIs(e, route, k);
      UpToNext(e, p, route[k].end, e.nLayers);
      var shard := CutShard(e, p, route[k], pos);
      if shard.None? || !accepts(k) { return; }
      ExtendPrefix(files, k, shard.value.0);
      StartNext(route, k);
      covered := route[k].end + 1;
      assert UpTo(e, p, covered) == Some(shard.value.1);
      loaded, pos := loaded + [shard.value.0], shard.value.1;
    }
    StartEnd(e, route);
  }

  lemma {:induction false} ExtendPrefix<T>(a: seq<T>, k: nat, x: T)
    requires k < |a| && a[k] == x
    ensures a[..k] + [x] == a[..k + 1]
  {
  }

  /** First layer not covered by the first k spans. */
  ghost function Start(route: Route, k: nat): nat
    requires k <= |route|
  {
    if k == 0 then 0 else route[k - 1].end + 1
  }

  lemma {:induction false} StartZero(route: Route)
    ensures Start(route, 0) == 0
  {
  }

  lemma {:induction false} StartNext(route: Route, k: nat)
    requires k < |route|
    ensures Start(route, k + 1) == route[k].end + 1
  {
  }

  lemma {:induction false} StartEnd(e: Engine, route: Route)
    requires RouteValid(route, e.nLayers)
    ensures Start(route, |route|) == e.nLayers
  {
  }

  lemma {:induction false} UpToZero(e: Engine, p: Shard)
    requires |p.nComp| == |p.nIndex|
    ensures UpTo(e, p, 0) == Some(0)
  {
  }

  lemma {:induction false} StartIs(e: Engine, route: Route, k: nat)
    requires RouteValid(route, e.nLayers) && k < |route|
    ensures Start(route, k) == route[k].start && route[k].end < e.nLayers
  {
    assert k > 0 ==> route[k - 1 + 1].start == route[k - 1].end + 1;
  }

  // ---------- What a load did before it failed ----------

  /** What is read before the first shard is cut: the layout, the counts, and the bytes left as tensors. */
  function ParseHead(e: Engine, ctx: u32, b: seq<u8>): Option<Shard> {
    if |b| < 4 * SESSION_WORDS then None
    else
      var h := FromLe32s(b, SESSION_WORDS);
      if !SessionHeaderOk(e, ctx, h) then None
      else
        var l := SessionLayout(h);
        var n := SESSION_WORDS + l.tokenCount;
        if |b| < 4 * n then None
        else if !Below(FromLe32s(b, n)[SESSION_WORDS..], e.vocab) || |b[4 * n..]| < 4 * e.vocab then None
        else HeadCounts(e, l, b[4 * n..][4 * e.vocab..])
  }

  function HeadCounts(e: Engine, l: Layout, rest: seq<u8>): Option<Shard> {
    var m := e.nLayers;
    if |rest| < 4 * (2 * m) then None
    else
      var counts := FromLe32s(rest, 2 * m);
      if Below(counts[..m], l.compCap + 1) && Below(counts[m..], l.compCap + 1)
      then Some(Shard(l, counts[..m], counts[m..], rest[4 * (2 * m)..])) else None
  }

  /** A file is a session exactly when its head parses and the tensors left are as many as the layers need. */
  lemma {:induction false} HeadIff(e: Engine, ctx: u32, b: seq<u8>)
    ensures var head, s := ParseHead(e, ctx, b), ParseSession(e, ctx, b);
      && (head.Some? ==> |head.value.nComp| == |head.value.nIndex| == e.nLayers)
      && (s.Some? <==> head.Some? && UpTo(e, head.value, e.nLayers) == Some(|head.value.tensors|))
      && (s.Some? ==> s.value.body == head.value)
  {
    hide FromLe32s, Below, SessionHeaderOk, SessionLayout, TotalBytes;
  }

  /** The bytes a load can read: the announced payload, or less if the file is shorter. */
  function Available(src: seq<u8>, payloadBytes: u64): seq<u8> {
    if payloadBytes <= |src| then src[..payloadBytes] else src
  }

  ghost predicate AllAccept(route: Route, accepts: nat -> bool) {
    forall k :: 0 <= k < |route| ==> accepts(k)
  }

  /** ds4_dist_session_load_payload: src is the open file from the payload on, payloadBytes the length its container
      announces.  loaded is what the sessions of the first spans were given, also when the load is then refused. */
  method LoadPayload(e: Engine, route: Route, ctx: u32, src: seq<u8>, payloadBytes: u64, accepts: nat -> bool, logitsOk: bool)
    returns (ok: bool, loaded: seq<seq<u8>>)
    requires RouteValid(route, e.nLayers)
    ensures ParseHead(e, ctx, Available(src, payloadBytes)).None? ==> !ok && loaded == []
    ensures var head := ParseHead(e, ctx, Available(src, payloadBytes)); head.Some? ==>
      && SpansIn(route, head.value) && LoadedUpTo(e, route, head.value, accepts, loaded)
      && (ok <==> |loaded| == |route| && logitsOk && payloadBytes <= |src|
                  && UpTo(e, head.value, e.nLayers) == Some(|head.value.tensors|))
    ensures var r := LoadResult(e, route, ctx, Available(src, payloadBytes));
      && (ok <==> payloadBytes <= |src| && r.Some? && AllAccept(route, accepts) && logitsOk)
      && (ok ==> loaded == r.value)
  {
    hide SessionHeaderOk, SessionLayout, FromLe32s, Below, HeadCounts, UpTo, LoadedUpTo, SpansIn, LoadResult, AllAccept;
    var b := Available(src, payloadBytes);
    LoadedAll(e, route, ctx, b, accepts);
    var h := ReadWords(b, SESSION_WORDS);
    if h.None? || !SessionHeaderOk(e, ctx, h.value) { return false, []; }
    var l := SessionLayout(h.value);
    var n := SESSION_WORDS + l.tokenCount;
    LaterWords(b, SESSION_WORDS, l.tokenCount);
    var tokens := ReadBounded(b[4 * SESSION_WORDS..], l.tokenCount, e.vocab);
    if tokens.None? || |b| < 4 * n + 4 * e.vocab { return false, []; }
    var rest := b[4 * n..][4 * e.vocab..];
    var left := payloadBytes - 4 * n - 4 * e.vocab;
    assert left - |rest| == payloadBytes - |b|;
    ok, loaded := LoadBody(e, route, l, rest, left, accepts, logitsOk);
  }

  /** The counts, then the shards one by one, then the test for trailing bytes; left is what the container still
      announces. */
  method LoadBody(e: Engine, route: Route, l: Layout, rest: seq<u8>, left: int, accepts: nat -> bool, logitsOk: bool)
    returns (ok: bool, loaded: seq<seq<u8>>)
    requires RouteValid(route, e.nLayers) && |rest| <= left
    ensures HeadCounts(e, l, rest).None? ==> !ok && loaded == []
    ensures var head := HeadCounts(e, l, rest); head.Some? ==>
      && |head.value.nComp| == |head.value.nIndex| == e.nLayers
      && SpansIn(route, head.value) && LoadedUpTo(e, route, head.value, accepts, loaded)
      && (ok <==> |loaded| == |route| && logitsOk && left == |rest|
                  && UpTo(e, head.value, e.nLayers) == Some(|head.value.tensors|))
  {
    hide UpTo, LoadedUpTo, SpansIn, RouteValid, Below, FromLe32s;
    var head := ReadCounts(e, l, rest);
    if head.None? { return false, []; }
    var pos;
    loaded, pos := LoadShards(e, route, head.value, accepts);
    ok := |loaded| == |route| && pos == left - 8 * e.nLayers && logitsOk;
  }

  method ReadCounts(e: Engine, l: Layout, rest: seq<u8>) returns (r: Option<Shard>)
    ensures r == HeadCounts(e, l, rest)
  {
    hide FromLe32s, Below;
    var m: nat := e.nLayers;
    TwoRuns(rest, m);
    var nComp := ReadBounded(rest, m, l.compCap + 1);
    if nComp.None? { return None; }
    var nIndex := ReadBounded(rest[4 * m..], m, l.compCap + 1);
    if nIndex.None? { return None; }
    return Some(Shard(l, nComp.value, nIndex.value, rest[4 * (2 * m)..]));
  }

  /** When the tensors are as many as the layers need, the loop ends early only at a session that refuses its shard, and
      otherwise every session has its slice. */
  lemma {:induction false} LoadedAll(e: Engine, route: Route, ctx: u32, b: seq<u8>, accepts: nat -> bool)
    requires RouteValid(route, e.nLayers)
    ensures var head, r := ParseHead(e, ctx, b), LoadResult(e, route, ctx, b);
      && (head.Some? ==> SpansIn(route, head.value))
      && (r.Some? <==> head.Some? && UpTo(e, head.value, e.nLayers) == Some(|head.value.tensors|))
      && (r.Some? ==> forall loaded :: LoadedUpTo(e, route, head.value, accepts, loaded) ==>
            (|loaded| == |route| <==> AllAccept(route, accepts)) && (|loaded| == |route| ==> loaded == r.value))
  {
    HeadIff(e, ctx, b);
    var head, r := ParseHead(e, ctx, b), LoadResult(e, route, ctx, b);
    hide ParseHead, ParseSession;
    if head.Some? { SpansFit(e, route, head.value); }
    if r.Some? {
      forall loaded | LoadedUpTo(e, route, head.value, accepts, loaded)
        ensures (|loaded| == |route| <==> AllAccept(route, accepts)) && (|loaded| == |route| ==> loaded == r.value)
      {
        EveryShardFits(e, route, head.value, accepts, loaded);
      }
    }
  }

  lemma {:induction false} SpansFit(e: Engine, route: Route, p: Shard)
    requires RouteValid(route, e.nLayers) && |p.nComp| == |p.nIndex| == e.nLayers
    ensures SpansIn(route, p)
  {
    forall i | 0 <= i < |route| ensures route[i].start <= route[i].end < |p.nComp| {
      StartIs(e, route, i);
    }
  }

  /** When the payload holds every layer, the loop ends early only at a session that refuses its shard; otherwise every
      session has its slice. */
  lemma {:induction false} EveryShardFits(e: Engine, route: Route, p: Shard, accepts: nat -> bool, loaded: seq<seq<u8>>)
    requires RouteValid(route, e.nLayers) && |p.nComp| == |p.nIndex| == e.nLayers && SpansIn(route, p)
    requires UpTo(e, p, e.nLayers).Some? && UpTo(e, p, e.nLayers).value <= |p.tensors|
    requires LoadedUpTo(e, route, p, accepts, loaded)
    ensures |loaded| == |route| <==> AllAccept(route, accepts)
    ensures |loaded| == |route| ==> loaded == ShardFiles(e, route, p)
  {
    hide UpTo, Cuttable, RouteValid;
    if |loaded| < |route| { SpanFits(e, route, p, |loaded|); }
    FullPrefix(loaded, ShardFiles(e, route, p));
  }

  lemma {:induction false} FullPrefix<T>(a: seq<T>, b: seq<T>)
    requires a <= b
    ensures |a| <= |b| && (|a| == |b| ==> a == b)
  {
  }

  lemma {:induction false} SpanFits(e: Engine, route: Route, p: Shard, k: nat)
    requires RouteValid(route, e.nLayers) && |p.nComp| == |p.nIndex| == e.nLayers && k < |route|
    requires UpTo(e, p, e.nLayers).Some? && UpTo(e, p, e.nLayers).value <= |p.tensors|
    ensures route[k].end < e.nLayers && Cuttable(e, p, route[k])
  {
    StartIs(e, route, k);
    hide UpTo, RouteValid;
    UpToNext(e, p, route[k].end, e.nLayers);
  }
}
