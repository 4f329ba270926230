/** Saved KV payloads and their layer shards (distributed.c, "DSV4 Payload Assembly And Sharding").

    A session file holds every layer; a shard file holds one contiguous range of layers.  The coordinator
    gathers shard files into a session file when it saves, and cuts a session file into shard files when it
    loads.  This module holds the two formats and their parsers; KvTopology proves what they are for.
  */
module KvPayload {
  import opened Words
  import opened TensorSizing

  const SESSION_MAGIC: u32 := 0x34565344
  const SESSION_VERSION: u32 := 2
  const SESSION_WORDS := 13
  const LAYER_MAGIC: u32 := 0x4c565344
  const LAYER_VERSION: u32 := 1
  const LAYER_WORDS := 14

  datatype Layout = Layout(
    ctx: u32, prefillCap: u32, rawCap: u32, rawWindow: u32, compCap: u32, tokenCount: u32,
    nLayers: u32, headDim: u32, indexerHeadDim: u32, rawLive: u32)

  /** The facts the engine supplies: vocabulary size, layer count, whether the raw window may be partly filled
      (the GLM layout), and the byte size of a layer's tensors, or None if it overflows 64 bits.  Nothing below
      depends on the size formula; DenseEngine gives the one of the non-GLM layout. */
  datatype Engine = Engine(
    vocab: u32, nLayers: u32, glm: bool, layerBytes: (Layout, nat, u32, u32) -> Option<u64>)

  function DenseEngine(vocab: u32, ratio: seq<u32>): Engine
    requires |ratio| < U32_LIMIT
  {
    Engine(vocab, |ratio|, false, (l: Layout, layer: nat, nComp: u32, nIndex: u32) =>
      LayerTensorBytes(Widths(l.rawLive, l.headDim, l.indexerHeadDim),
                       if layer < |ratio| then ratio[layer] else 0, nComp, nIndex))
  }

  /** Layers start..end inclusive. */
  datatype Span = Span(start: u32, end: u32)

  predicate RawLiveValid(e: Engine, l: Layout) {
    var maxLive := if l.tokenCount < l.rawWindow then l.tokenCount else l.rawWindow;
    && l.rawWindow != 0 && l.rawCap != 0
    && (if e.glm then l.rawLive <= maxLive else l.rawLive == maxLive)
    && l.rawLive <= l.rawCap
  }

  /** Bytes of the k layers from layer first on, with the given row counts; None if one layer's size overflows. */
  function TotalBytes(e: Engine, l: Layout, first: nat, nComp: seq<u32>, nIndex: seq<u32>, k: nat): Option<nat>
    requires k <= |nComp| == |nIndex|
  {
    if k == 0 then Some(0)
    else
      var before :- TotalBytes(e, l, first, nComp, nIndex, k - 1);
      var bytes :- e.layerBytes(l, first + (k - 1), nComp[k - 1], nIndex[k - 1]);
      Some(before + bytes)
  }

  predicate Below(xs: seq<u32>, limit: nat) {
    forall i :: 0 <= i < |xs| ==> xs[i] < limit
  }

  // ---------- The two file formats ----------

  function LayerHeader(l: Layout, s: Span): (h: seq<u32>)
    ensures |h| == LAYER_WORDS
  {
    [LAYER_MAGIC, LAYER_VERSION, l.ctx, l.prefillCap, l.rawCap, l.rawWindow, l.compCap, l.tokenCount,
     l.nLayers, l.headDim, l.indexerHeadDim, s.start, s.end, l.rawLive]
  }

  function SessionHeader(l: Layout, vocab: u32): (h: seq<u32>)
    ensures |h| == SESSION_WORDS
  {
    [SESSION_MAGIC, SESSION_VERSION, l.ctx, l.prefillCap, l.rawCap, l.rawWindow, l.compCap, l.tokenCount,
     l.nLayers, l.headDim, l.indexerHeadDim, vocab, l.rawLive]
  }

  function ShardBytes(l: Layout, s: Span, nComp: seq<u32>, nIndex: seq<u32>, tensors: seq<u8>): seq<u8> {
    Le32s(LayerHeader(l, s)) + (Le32s(nComp + nIndex) + tensors)
  }

  function SessionBytes(l: Layout, vocab: u32, tokens: seq<u32>, logits: seq<u8>, nComp: seq<u32>, nIndex: seq<u32>,
                        tensors: seq<u8>): seq<u8>
  {
    Le32s(SessionHeader(l, vocab) + tokens) + (logits + (Le32s(nComp + nIndex) + tensors))
  }

  // ---------- Parsing a shard file ----------

  /** Contents of a shard file: row counts per layer and the layers' tensors end to end. */
  datatype Shard = Shard(layout: Layout, nComp: seq<u32>, nIndex: seq<u32>, tensors: seq<u8>)

  function LayerLayout(h: seq<u32>): Layout
    requires |h| == LAYER_WORDS
  {
    Layout(h[2], h[3], h[4], h[5], h[6], h[7], h[8], h[9], h[10], h[13])
  }

  predicate LayerHeaderOk(e: Engine, h: seq<u32>, s: Span, given: Option<Layout>)
    requires |h| == LAYER_WORDS
  {
    var l := LayerLayout(h);
    && h[0] == LAYER_MAGIC && h[1] == LAYER_VERSION
    && h[11] == s.start && h[12] == s.end && s.start <= s.end < l.nLayers
    && l.nLayers == e.nLayers && RawLiveValid(e, l)
    && (given.Some? ==> given.value == l)
  }

  predicate BodyOk(e: Engine, first: nat, p: Shard)
    requires |p.nComp| == |p.nIndex|
  {
    && Below(p.nComp, p.layout.compCap + 1) && Below(p.nIndex, p.layout.compCap + 1)
    && TotalBytes(e, p.layout, first, p.nComp, p.nIndex, |p.nComp|) == Some(|p.tensors|)
  }

  /** Row counts of m layers from layer first on, then exactly those layers' tensors. */
  function ParseBody(e: Engine, l: Layout, first: nat, m: nat, b: seq<u8>): Option<Shard> {
    if |b| < 4 * (2 * m) then None
    else
      var counts := FromLe32s(b, 2 * m);
      var p := Shard(l, counts[..m], counts[m..], b[4 * (2 * m)..]);
      if BodyOk(e, first, p) then Some(p) else None
  }

  /** The true size of the k layers from layer first on of the non-GLM layout. */
  function TrueSize(ratio: seq<u32>, l: Layout, first: nat, nComp: seq<u32>, nIndex: seq<u32>, k: nat): nat
    requires k <= |nComp| == |nIndex|
  {
    if k == 0 then 0
    else
      TrueSize(ratio, l, first, nComp, nIndex, k - 1) +
      LayerSize(Widths(l.rawLive, l.headDim, l.indexerHeadDim),
                if first + (k - 1) < |ratio| then ratio[first + (k - 1)] else 0, nComp[k - 1], nIndex[k - 1])
  }

  /** The sum of the checked layer sizes fits 64 bits exactly when the true size does, and is then the true size. */
  lemma {:induction false} DenseTotalExact(
      vocab: u32, ratio: seq<u32>, l: Layout, first: nat, nComp: seq<u32>, nIndex: seq<u32>, k: nat)
    requires |ratio| < U32_LIMIT && k <= |nComp| == |nIndex|
    ensures var t := TotalBytes(DenseEngine(vocab, ratio), l, first, nComp, nIndex, k);
      var size := TrueSize(ratio, l, first, nComp, nIndex, k);
      (t.Some? ==> t.value == size) && (t.None? ==> size >= U64_LIMIT)
  {
    hide LayerTensorBytes, LayerSize;
    if k != 0 {
      DenseTotalExact(vocab, ratio, l, first, nComp, nIndex, k - 1);
      LayerTensorBytesExact(Widths(l.rawLive, l.headDim, l.indexerHeadDim),
                            if first + (k - 1) < |ratio| then ratio[first + (k - 1)] else 0, nComp[k - 1], nIndex[k - 1]);
    }
  }

  /** Tensor bytes of any length below 2^64 make a sound body of the non-GLM layout exactly when there are as many as
      the true size. */
  lemma {:induction false} DenseBodyExact(vocab: u32, ratio: seq<u32>, first: nat, p: Shard)
    requires |ratio| < U32_LIMIT && |p.nComp| == |p.nIndex| && |p.tensors| < U64_LIMIT
    ensures BodyOk(DenseEngine(vocab, ratio), first, p) <==>
      && Below(p.nComp, p.layout.compCap + 1) && Below(p.nIndex, p.layout.compCap + 1)
      && |p.tensors| == TrueSize(ratio, p.layout, first, p.nComp, p.nIndex, |p.nComp|)
  {
    hide TotalBytes, TrueSize, DenseEngine, Below;
    DenseTotalExact(vocab, ratio, p.layout, first, p.nComp, p.nIndex, |p.nComp|);
  }

  /** What dist_kv_parse_layer_payload accepts: header, counts and an exact number of tensor bytes. */
  function ParseShard(e: Engine, file: seq<u8>, s: Span, given: Option<Layout>): Option<Shard> {
    if |file| < 4 * LAYER_WORDS then None
    else ParseAfterHeader(e, FromLe32s(file, LAYER_WORDS), s, given, file[4 * LAYER_WORDS..])
  }

  function ParseAfterHeader(e: Engine, h: seq<u32>, s: Span, given: Option<Layout>, rest: seq<u8>): Option<Shard>
    requires |h| == LAYER_WORDS
  {
    if LayerHeaderOk(e, h, s, given) then ParseBody(e, LayerLayout(h), s.start, s.end - s.start + 1, rest) else None
  }

  ghost predicate ShardValid(e: Engine, s: Span, p: Shard) {
    && s.start <= s.end < p.layout.nLayers == e.nLayers && RawLiveValid(e, p.layout)
    && |p.nComp| == |p.nIndex| == s.end - s.start + 1
    && BodyOk(e, s.start, p)
  }

  function ShardFile(s: Span, p: Shard): seq<u8> {
    ShardBytes(p.layout, s, p.nComp, p.nIndex, p.tensors)
  }

  lemma {:induction false} ParseBodyIff(e: Engine, first: nat, m: nat, b: seq<u8>, p: Shard)
    requires |p.nComp| == |p.nIndex| == m
    ensures ParseBody(e, p.layout, first, m, b) == Some(p) <==>
            BodyOk(e, first, p) && b == Le32s(p.nComp + p.nIndex) + p.tensors
  {
    var words := p.nComp + p.nIndex;
    assert words[..m] == p.nComp && words[m..] == p.nIndex;
    if |b| >= 4 * (2 * m) {
      WordsThenRest(b, words, p.tensors);
      var counts := FromLe32s(b, 2 * m);
      assert counts == counts[..m] + counts[m..];
      assert counts == words <==> counts[..m] == p.nComp && counts[m..] == p.nIndex;
    }
  }

  lemma {:induction false} LayerHeaderOkIff(e: Engine, h: seq<u32>, s: Span, given: Option<Layout>)
    requires |h| == LAYER_WORDS
    ensures LayerHeaderOk(e, h, s, given) ==> h == LayerHeader(LayerLayout(h), s)
  {
  }

  /** The parser accepts only the bytes of a valid shard, and returns that shard ... */
  lemma {:induction false} ParseShardSound(e: Engine, file: seq<u8>, s: Span, given: Option<Layout>)
    ensures var r := ParseShard(e, file, s, given);
      r.Some? ==> ShardValid(e, s, r.value) && file == ShardFile(s, r.value) && (given.Some? ==> given.value == r.value.layout)
  {
    if |file| >= 4 * LAYER_WORDS {
      var h, rest := FromLe32s(file, LAYER_WORDS), file[4 * LAYER_WORDS..];
      WordsThenRest(file, h, rest);
      AfterHeaderSound(e, h, s, given, rest);
    }
  }

  lemma {:induction false} AfterHeaderSound(e: Engine, h: seq<u32>, s: Span, given: Option<Layout>, rest: seq<u8>)
    requires |h| == LAYER_WORDS
    ensures var r := ParseAfterHeader(e, h, s, given, rest); r.Some? ==>
      && ShardValid(e, s, r.value) && h == LayerHeader(r.value.layout, s)
      && rest == Le32s(r.value.nComp + r.value.nIndex) + r.value.tensors
      && (given.Some? ==> given.value == r.value.layout)
  {
    hide TotalBytes, Le32s, ParseBody, Below;
    if LayerHeaderOk(e, h, s, given) {
      BodySound(e, LayerLayout(h), s, rest);
      LayerHeaderOkIff(e, h, s, given);
    }
  }

  lemma {:induction false} BodySound(e: Engine, l: Layout, s: Span, rest: seq<u8>)
    requires s.start <= s.end
    ensures var r := ParseBody(e, l, s.start, s.end - s.start + 1, rest); r.Some? ==>
      && r.value.layout == l && |r.value.nComp| == |r.value.nIndex| == s.end - s.start + 1
      && BodyOk(e, s.start, r.value) && rest == Le32s(r.value.nComp + r.value.nIndex) + r.value.tensors
  {
    var m := s.end - s.start + 1;
    var r := ParseBody(e, l, s.start, m, rest);
    if r.Some? {
      ParseBodyIff(e, s.start, m, rest, r.value);
    }
  }

  lemma {:induction false} LayerHeaderParses(e: Engine, s: Span, given: Option<Layout>, l: Layout)
    requires s.start <= s.end < l.nLayers == e.nLayers && RawLiveValid(e, l)
    requires given.Some? ==> given.value == l
    ensures LayerHeaderOk(e, LayerHeader(l, s), s, given) && LayerLayout(LayerHeader(l, s)) == l
  {
  }

  /** ... and it accepts them all. */
  lemma {:induction false} ParseShardComplete(e: Engine, s: Span, given: Option<Layout>, p: Shard)
    requires ShardValid(e, s, p)
    requires given.Some? ==> given.value == p.layout
    ensures ParseShard(e, ShardFile(s, p), s, given) == Some(p)
  {
    LayerHeaderParses(e, s, given, p.layout);
    ParseShardWords(e, s, given, LayerHeader(p.layout, s), p);
  }

  lemma {:induction false} ParseShardWords(e: Engine, s: Span, given: Option<Layout>, h: seq<u32>, p: Shard)
    requires |h| == LAYER_WORDS && LayerHeaderOk(e, h, s, given) && LayerLayout(h) == p.layout
    requires |p.nComp| == |p.nIndex| == s.end - s.start + 1 && BodyOk(e, s.start, p)
    ensures ParseShard(e, Le32s(h) + (Le32s(p.nComp + p.nIndex) + p.tensors), s, given) == Some(p)
  {
    var rest := Le32s(p.nComp + p.nIndex) + p.tensors;
    WordsThenRest(Le32s(h) + rest, h, rest);
    AfterHeaderComplete(e, s, given, h, p, rest);
  }

  lemma {:induction false} AfterHeaderComplete(e: Engine, s: Span, given: Option<Layout>, h: seq<u32>, p: Shard, rest: seq<u8>)
    requires |h| == LAYER_WORDS && LayerHeaderOk(e, h, s, given) && LayerLayout(h) == p.layout
    requires |p.nComp| == |p.nIndex| == s.end - s.start + 1 && BodyOk(e, s.start, p)
    requires rest == Le32s(p.nComp + p.nIndex) + p.tensors
    ensures ParseAfterHeader(e, h, s, given, rest) == Some(p)
  {
    hide TotalBytes, Le32s, ParseBody, Below;
    ParseBodyIff(e, s.start, s.end - s.start + 1, rest, p);
  }

  // ---------- Parsing a session file ----------

  datatype Session = Session(tokens: seq<u32>, logits: seq<u8>, body: Shard)

  function SessionLayout(h: seq<u32>): Layout
    requires |h| == SESSION_WORDS
  {
    Layout(h[2], h[3], h[4], h[5], h[6], h[7], h[8], h[9], h[10], h[12])
  }

  predicate SessionHeaderOk(e: Engine, ctx: u32, h: seq<u32>)
    requires |h| == SESSION_WORDS
  {
    var l := SessionLayout(h);
    && h[0] == SESSION_MAGIC && h[1] == SESSION_VERSION && h[11] == e.vocab
    && RuntimeOk(e, ctx, l)
  }

  predicate RuntimeOk(e: Engine, ctx: u32, l: Layout) {
    l.nLayers == e.nLayers && l.ctx <= ctx && l.tokenCount < ctx && RawLiveValid(e, l)
  }

  /** What ds4_dist_session_load_payload accepts, for a session whose context holds ctx tokens. */
  function ParseSession(e: Engine, ctx: u32, b: seq<u8>): Option<Session> {
    if |b| < 4 * SESSION_WORDS then None
    else
      var h := FromLe32s(b, SESSION_WORDS);
      if !SessionHeaderOk(e, ctx, h) then None
      else
        var l := SessionLayout(h);
        var n := SESSION_WORDS + l.tokenCount;
        if |b| < 4 * n then None
        else
          var tokens := FromLe32s(b, n)[SESSION_WORDS..];
          if !Below(tokens, e.vocab) then None
          else
            var (logits, body) :- ParseTail(e, l, b[4 * n..]);
            Some(Session(tokens, logits, body))
  }

  /** The logits, then the counts and tensors of all layers. */
  function ParseTail(e: Engine, l: Layout, b: seq<u8>): Option<(seq<u8>, Shard)> {
    if |b| < 4 * e.vocab then None
    else
      var body :- ParseBody(e, l, 0, e.nLayers, b[4 * e.vocab..]);
      Some((b[..4 * e.vocab], body))
  }

  ghost predicate SessionValid(e: Engine, ctx: u32, s: Session) {
    && RuntimeOk(e, ctx, s.body.layout)
    && |s.tokens| == s.body.layout.tokenCount && Below(s.tokens, e.vocab)
    && |s.logits| == 4 * e.vocab
    && |s.body.nComp| == |s.body.nIndex| == e.nLayers && BodyOk(e, 0, s.body)
  }

  function SessionFile(e: Engine, s: Session): seq<u8> {
    SessionBytes(s.body.layout, e.vocab, s.tokens, s.logits, s.body.nComp, s.body.nIndex, s.body.tensors)
  }

  lemma {:induction false} ParseTailIff(e: Engine, l: Layout, b: seq<u8>, logits: seq<u8>, p: Shard)
    requires |p.nComp| == |p.nIndex| == e.nLayers && p.layout == l && |logits| == 4 * e.vocab
    ensures ParseTail(e, l, b) == Some((logits, p)) <==>
            BodyOk(e, 0, p) && b == logits + (Le32s(p.nComp + p.nIndex) + p.tensors)
  {
    var n := 4 * e.vocab;
    if |b| >= n {
      assert b == b[..n] + b[n..];
      ParseBodyIff(e, 0, e.nLayers, b[n..], p);
    }
  }

  lemma {:induction false} ParseSessionSound(e: Engine, ctx: u32, b: seq<u8>)
    ensures var r := ParseSession(e, ctx, b);
      r.Some? ==> SessionValid(e, ctx, r.value) && b == SessionFile(e, r.value)
  {
    var r := ParseSession(e, ctx, b);
    if r.Some? {
      hide FromLe32s, Le32s, ParseTail, SessionHeaderOk, SessionLayout, Below, SessionValid, SessionFile;
      var h := FromLe32s(b, SESSION_WORDS);
      var n := SESSION_WORDS + SessionLayout(h).tokenCount;
      var words := FromLe32s(b, n);
      FirstWords(b, n, SESSION_WORDS);
      assert words == h + r.value.tokens;
      WordsThenRest(b, words, b[4 * n..]);
      SessionSoundWords(e, ctx, h, r.value, b[4 * n..]);
    }
  }

  lemma {:induction false} SessionSoundWords(e: Engine, ctx: u32, h: seq<u32>, s: Session, tail: seq<u8>)
    requires |h| == SESSION_WORDS && SessionHeaderOk(e, ctx, h)
    requires |s.tokens| == SessionLayout(h).tokenCount && Below(s.tokens, e.vocab)
    ensures ParseTail(e, SessionLayout(h), tail) == Some((s.logits, s.body)) ==>
      SessionValid(e, ctx, s) && Le32s(h + s.tokens) + tail == SessionFile(e, s)
  {
    hide Le32s, ParseTail, BodyOk, Below;
    var l := SessionLayout(h);
    if ParseTail(e, l, tail) == Some((s.logits, s.body)) {
      TailShape(e, l, tail);
      ParseTailIff(e, l, tail, s.logits, s.body);
      HeaderAgain(e, ctx, h);
    }
  }

  lemma {:induction false} HeaderAgain(e: Engine, ctx: u32, h: seq<u32>)
    requires |h| == SESSION_WORDS && SessionHeaderOk(e, ctx, h)
    ensures h == SessionHeader(SessionLayout(h), e.vocab)
  {
  }

  lemma {:induction false} TailShape(e: Engine, l: Layout, b: seq<u8>)
    ensures var r := ParseTail(e, l, b); r.Some? ==>
      |r.value.0| == 4 * e.vocab && r.value.1.layout == l && |r.value.1.nComp| == |r.value.1.nIndex| == e.nLayers
  {
  }

  lemma {:induction false} SessionHeaderParses(e: Engine, ctx: u32, l: Layout)
    requires RuntimeOk(e, ctx, l)
    ensures SessionHeaderOk(e, ctx, SessionHeader(l, e.vocab)) && SessionLayout(SessionHeader(l, e.vocab)) == l
  {
  }

  lemma {:induction false} ParseSessionWords(e: Engine, ctx: u32, h: seq<u32>, s: Session)
    requires SessionValid(e, ctx, s)
    requires |h| == SESSION_WORDS && SessionHeaderOk(e, ctx, h) && SessionLayout(h) == s.body.layout
    ensures ParseSession(e, ctx, Le32s(h + s.tokens) + (s.logits + (Le32s(s.body.nComp + s.body.nIndex) + s.body.tensors)))
         == Some(s)
  {
    hide ParseSession, ParseTail, Le32s, FromLe32s, SessionHeaderOk, Below, BodyOk, RuntimeOk;
    var words := h + s.tokens;
    var tail := s.logits + (Le32s(s.body.nComp + s.body.nIndex) + s.body.tensors);
    var b := Le32s(words) + tail;
    WordsThenRest(b, words, tail);
    FirstWords(b, |words|, SESSION_WORDS);
    assert words[..SESSION_WORDS] == h && words[SESSION_WORDS..] == s.tokens;
    ParseTailIff(e, s.body.layout, tail, s.logits, s.body);
    SessionFromParts(e, ctx, b, h, s);
  }

  /** The parser, told what each part of the file reads as. */
  lemma {:induction false} SessionFromParts(e: Engine, ctx: u32, b: seq<u8>, h: seq<u32>, s: Session)
    requires |h| == SESSION_WORDS && SessionHeaderOk(e, ctx, h) && |s.tokens| == SessionLayout(h).tokenCount
    requires |b| >= 4 * (SESSION_WORDS + |s.tokens|) && FromLe32s(b, SESSION_WORDS) == h
    requires FromLe32s(b, SESSION_WORDS + |s.tokens|)[SESSION_WORDS..] == s.tokens && Below(s.tokens, e.vocab)
    requires ParseTail(e, SessionLayout(h), b[4 * (SESSION_WORDS + |s.tokens|)..]) == Some((s.logits, s.body))
    ensures ParseSession(e, ctx, b) == Some(s)
  {
    hide ParseTail, FromLe32s, SessionHeaderOk, SessionLayout, Below;
  }

  lemma {:induction false} ParseSessionComplete(e: Engine, ctx: u32, s: Session)
    requires SessionValid(e, ctx, s)
    ensures ParseSession(e, ctx, SessionFile(e, s)) == Some(s)
  {
    SessionHeaderParses(e, ctx, s.body.layout);
    ParseSessionWords(e, ctx, SessionHeader(s.body.layout, e.vocab), s);
  }

  // ---------- Acceptance in fields ----------

  /** Which words of the headers hold which fields. */
  lemma {:induction false} HeaderWords(l: Layout, s: Span, vocab: u32)
    ensures var h := LayerHeader(l, s);
      && h[0] == 0x4c565344 && h[1] == 1 && h[2] == l.ctx && h[3] == l.prefillCap && h[4] == l.rawCap
      && h[5] == l.rawWindow && h[6] == l.compCap && h[7] == l.tokenCount && h[8] == l.nLayers && h[9] == l.headDim
      && h[10] == l.indexerHeadDim && h[11] == s.start && h[12] == s.end && h[13] == l.rawLive
    ensures var h := SessionHeader(l, vocab);
      && h[0] == 0x34565344 && h[1] == 2 && h[2] == l.ctx && h[3] == l.prefillCap && h[4] == l.rawCap
      && h[5] == l.rawWindow && h[6] == l.compCap && h[7] == l.tokenCount && h[8] == l.nLayers && h[9] == l.headDim
      && h[10] == l.indexerHeadDim && h[11] == vocab && h[12] == l.rawLive
  {
  }

  /** A shard file is accepted exactly when its span lies in the layers, its counts are within the cap, it has the tensor
      bytes of its layers, its layout is the given one, and its live rows are as many as tokens and window allow: at most
      the tokens, the window and the capacity, and without GLM all the tokens or the whole window. */
  lemma {:induction false} ShardAcceptedIff(e: Engine, s: Span, given: Option<Layout>, p: Shard)
    requires |p.nComp| == |p.nIndex|
    ensures ParseShard(e, ShardFile(s, p), s, given) == Some(p) <==>
      && s.start <= s.end < e.nLayers && p.layout.nLayers == e.nLayers && |p.nComp| == s.end - s.start + 1
      && p.layout.rawWindow != 0 && p.layout.rawCap != 0
      && p.layout.rawLive <= p.layout.tokenCount && p.layout.rawLive <= p.layout.rawWindow
      && p.layout.rawLive <= p.layout.rawCap
      && (e.glm || p.layout.rawLive == p.layout.tokenCount || p.layout.rawLive == p.layout.rawWindow)
      && (forall i :: 0 <= i < |p.nComp| ==> p.nComp[i] <= p.layout.compCap)
      && (forall i :: 0 <= i < |p.nIndex| ==> p.nIndex[i] <= p.layout.compCap)
      && TotalBytes(e, p.layout, s.start, p.nComp, p.nIndex, |p.nComp|) == Some(|p.tensors|)
      && (given == None || given == Some(p.layout))
  {
    hide ParseShard, ShardFile, TotalBytes;
    ParseShardSound(e, ShardFile(s, p), s, given);
    if ShardValid(e, s, p) && (given.Some? ==> given.value == p.layout) {
      ParseShardComplete(e, s, given, p);
    }
  }

  /** A session file is accepted exactly when it has the engine's layers and vocabulary, fits the session's context, has
      tokens of the vocabulary, counts within the cap, the tensor bytes of all layers, and live rows as above. */
  lemma {:induction false} SessionAcceptedIff(e: Engine, ctx: u32, s: Session)
    requires |s.tokens| == s.body.layout.tokenCount && |s.logits| == 4 * e.vocab
    requires |s.body.nComp| == |s.body.nIndex| == e.nLayers
    ensures var l := s.body.layout; ParseSession(e, ctx, SessionFile(e, s)) == Some(s) <==>
      && l.nLayers == e.nLayers && l.ctx <= ctx && l.tokenCount < ctx
      && (forall i :: 0 <= i < |s.tokens| ==> s.tokens[i] < e.vocab)
      && l.rawWindow != 0 && l.rawCap != 0
      && l.rawLive <= l.tokenCount && l.rawLive <= l.rawWindow && l.rawLive <= l.rawCap
      && (e.glm || l.rawLive == l.tokenCount || l.rawLive == l.rawWindow)
      && (forall i :: 0 <= i < |s.body.nComp| ==> s.body.nComp[i] <= l.compCap)
      && (forall i :: 0 <= i < |s.body.nIndex| ==> s.body.nIndex[i] <= l.compCap)
      && TotalBytes(e, l, 0, s.body.nComp, s.body.nIndex, e.nLayers) == Some(|s.body.tensors|)
  {
    hide ParseSession, SessionFile, TotalBytes;
    ParseSessionSound(e, ctx, SessionFile(e, s));
    if SessionValid(e, ctx, s) {
      ParseSessionComplete(e, ctx, s);
    }
  }
}
