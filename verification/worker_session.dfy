/** A worker's KV sessions and the prefix-hash handshake of distributed WORK frames
    (distributed.c:6985-7162, 7168-7520; coordinator side 2668-2704).

    The graph evaluator is not shown in the repository.  Its part of each step is an argument (Env): whether a
    reset, an evaluation or a load succeeds, and what a failed evaluation or load leaves behind.  A successful
    slice evaluation needs pos0 equal to the length of the timeline and appends its tokens; a successful reset
    empties the timeline, a failed one changes nothing; a successful load replaces it. */
module WorkerSession {
  import opened Words
  import opened TokenHash
  import RouteBlob
  import Activation

  /** timeline is the evaluator's token history; hash and hashValid are the worker's own fields. */
  datatype Session = Session(timeline: seq<u32>, hash: Hash, hashValid: bool)

  const NEW_SESSION := Session([], 0, false)

  /** A worker's assignment.  frameOk is its verdict on the route and the activations of a frame; nothing but
      AcceptedFrame looks inside, and WireConfig gives the one of the source. */
  datatype Config = Config(
    modelId: nat, layerStart: nat, layerEnd: nat, nLayers: u32, ctxSize: nat, vocab: nat, hasOutput: bool,
    frameOk: Work -> bool)

  /** A decoded WORK frame: the span and its hashes, the route, and the activations.  sizesOk says that the sizes its
      header announces add up to the frame. */
  datatype Work = Work(
    modelId: nat, layerStart: nat, layerEnd: nat, pos0: nat, tokens: seq<u32>,
    prefixHash: Hash, resultHash: Hash,
    reset: bool, inputHc: bool, outputLogits: bool, flagsValid: bool, sizesOk: bool,
    route: seq<u8>, routeCount: u32, routeIndex: u32, inputBits: u32, input: seq<u8>)

  datatype Load = Load(modelId: nat, layerStart: nat, layerEnd: nat, tokens: seq<u32>, tokenHash: Hash, payloadOk: bool)

  datatype Env = Env(resetOk: bool, evalOk: bool, loadOk: bool, left: seq<u32>)

  datatype Reply = Refused | Done

  // ---------- One step on one session ----------

  predicate InVocabulary(cfg: Config, tokens: seq<u32>) {
    forall i :: 0 <= i < |tokens| ==> tokens[i] < cfg.vocab
  }

  predicate WorkAdmissible(step: Step, cfg: Config, w: Work) {
    && w.sizesOk && w.modelId == cfg.modelId
    && w.layerStart == cfg.layerStart && w.layerEnd == cfg.layerEnd
    && w.flagsValid && w.tokens != []
    && w.pos0 <= cfg.ctxSize && |w.tokens| <= cfg.ctxSize - w.pos0
    && (w.inputHc <==> w.layerStart != 0)
    && (w.outputLogits ==> cfg.hasOutput && w.layerEnd + 1 == cfg.nLayers)
    && InVocabulary(cfg, w.tokens)
    && Fold(step, w.prefixHash, w.tokens) == w.resultHash
    && cfg.frameOk(w)
  }

  /** The configuration whose frame checks are the source's.  spanValues is the number of hidden-state values of a span:
      the hidden size times its tokens. */
  function WireConfig(cfg: Config, spanValues: nat -> nat): Config {
    cfg.(frameOk := (w: Work) =>
      InputOk(spanValues, w) &&
      RouteBlob.RouteChecks(w.route, w.routeCount, w.routeIndex, cfg.nLayers, w.layerStart, w.layerEnd, w.outputLogits))
  }

  /** The hidden states of the span: the announced width is one of the codec's, and the bytes are as many as the values
      of the span need. */
  predicate InputOk(spanValues: nat -> nat, w: Work) {
    var values := spanValues(|w.tokens|);
    && values < 0x4000_0000
    && if w.inputHc then Activation.WireBytes(w.inputBits, values) == Some(|w.input|) else w.input == []
  }

  /** A frame that is let through is for its hop of a well-formed route, with the hop's layers and output flag, and its
      activations decode to as many values as the span has: the later tests of the decoder cannot fail. */
  lemma {:induction false} AcceptedFrame(step: Step, cfg: Config, spanValues: nat -> nat, w: Work)
    ensures WorkAdmissible(step, WireConfig(cfg, spanValues), w) ==> exists hops ::
      RouteBlob.FrameFor(hops, w.route, w.routeCount, w.routeIndex, cfg.nLayers, cfg.layerStart, cfg.layerEnd, w.outputLogits)
    ensures var decoded := Activation.DecodeVector(w.inputBits, w.input);
      WorkAdmissible(step, WireConfig(cfg, spanValues), w) && w.inputHc ==>
        decoded.Some? && |decoded.value| == spanValues(|w.tokens|)
  {
    hide RouteBlob.RouteChecks, RouteBlob.FrameFor, Activation.WireBytes, Activation.DecodeVector, Fold, InVocabulary;
    if WorkAdmissible(step, WireConfig(cfg, spanValues), w) {
      RouteBlob.RouteChecksIff(
        w.route, w.routeCount, w.routeIndex, cfg.nLayers, w.layerStart, w.layerEnd, w.outputLogits);
      if w.inputHc {
        Activation.WireDecodes(w.inputBits, spanValues(|w.tokens|), w.input);
      }
    }
  }

  predicate LoadAdmissible(step: Step, cfg: Config, l: Load) {
    && l.payloadOk && |l.tokens| <= cfg.ctxSize && InVocabulary(cfg, l.tokens)
    && Fold(step, HASH_INIT, l.tokens) == l.tokenHash
    && l.modelId == cfg.modelId && l.layerStart == cfg.layerStart && l.layerEnd == cfg.layerEnd
  }

  /** The session once the reset has been done or the missing hash recomputed. */
  function Prepared(step: Step, s: Session, w: Work): Session {
    if w.reset then Session([], HASH_INIT, true)
    else if !s.hashValid then Session(s.timeline, Fold(step, HASH_INIT, s.timeline), true)
    else s
  }

  /** The critical section of dist_worker_process_work_payload. */
  function ApplyWork(step: Step, s: Session, w: Work, env: Env): (Session, Reply) {
    if w.reset && !env.resetOk then (s, Refused)
    else
      var p := Prepared(step, s, w);
      if p.hash != w.prefixHash then (p, Refused)
      else if env.evalOk && w.pos0 == |p.timeline| then (Session(p.timeline + w.tokens, w.resultHash, true), Done)
      else (Session(env.left, p.hash, false), Refused)
  }

  function ApplyLoad(s: Session, l: Load, env: Env): (Session, Reply) {
    if env.loadOk then (Session(l.tokens, l.tokenHash, true), Done)
    else (Session(env.left, s.hash, false), Refused)
  }

  function HandleWork(step: Step, cfg: Config, s: Session, w: Work, env: Env): (Session, Reply) {
    if WorkAdmissible(step, cfg, w) then ApplyWork(step, s, w, env) else (s, Refused)
  }

  function HandleLoad(step: Step, cfg: Config, s: Session, l: Load, env: Env): (Session, Reply) {
    if LoadAdmissible(step, cfg, l) then ApplyLoad(s, l, env) else (s, Refused)
  }

  // ---------- The worker ----------

  class Worker {
    const step: Step
    const cfg: Config
    var sessions: map<nat, Session>

    ghost predicate Valid()
      reads this
    {
      forall id :: id in sessions ==> HashHonest(step, sessions[id])
    }

    constructor (step: Step, cfg: Config)
      ensures Valid() && sessions == map[] && this.step == step && this.cfg == cfg
    {
      this.step, this.cfg, sessions := step, cfg, map[];
    }

    /** dist_worker_get_session_locked: a session is created, empty and without a hash, at first use. */
    function Find(id: nat): Session
      reads this
    {
      if id in sessions then sessions[id] else NEW_SESSION
    }

    method ProcessWork(id: nat, w: Work, env: Env) returns (reply: Reply)
      requires Valid()
      modifies this
      ensures Valid()
      ensures reply == HandleWork(step, cfg, old(Find(id)), w, env).1
      ensures Find(id) == HandleWork(step, cfg, old(Find(id)), w, env).0
      ensures forall other :: other != id ==> Find(other) == old(Find(other))
    {
      hide Fold, WorkAdmissible;
      if !WorkAdmissible(step, cfg, w) { return Refused; }
      var s := Find(id);
      HonestWork(step, cfg, s, w, env);
      if w.reset && !env.resetOk {
        sessions := sessions[id := s];
        return Refused;
      }
      if w.reset {
        s := Session([], HASH_INIT, true);
      } else if !s.hashValid {
        s := s.(hash := Fold(step, HASH_INIT, s.timeline), hashValid := true);
      }
      sessions := sessions[id := s];
      if s.hash != w.prefixHash { return Refused; }
      if env.evalOk && w.pos0 == |s.timeline| {
        sessions := sessions[id := Session(s.timeline + w.tokens, w.resultHash, true)];
        return Done;
      }
      sessions := sessions[id := Session(env.left, s.hash, false)];
      return Refused;
    }

    method LoadSnapshot(id: nat, l: Load, env: Env) returns (reply: Reply)
      requires Valid()
      modifies this
      ensures Valid()
      ensures reply == HandleLoad(step, cfg, old(Find(id)), l, env).1
      ensures Find(id) == HandleLoad(step, cfg, old(Find(id)), l, env).0
      ensures forall other :: other != id ==> Find(other) == old(Find(other))
    {
      if !LoadAdmissible(step, cfg, l) { return Refused; }
      var s := Find(id);
      if env.loadOk {
        sessions := sessions[id := Session(l.tokens, l.tokenHash, true)];
        return Done;
      }
      sessions := sessions[id := Session(env.left, s.hash, false)];
      return Refused;
    }

    method ClearSessions()
      modifies this
      ensures Valid() && sessions == map[]
    {
      sessions := map[];
    }
  }

  // ---------- What every step keeps ----------

  /** A session marked hash-valid carries the hash of its own timeline. */
  predicate HashHonest(step: Step, s: Session) {
    s.hashValid ==> s.hash == Fold(step, HASH_INIT, s.timeline)
  }

  lemma {:induction false} HonestWork(step: Step, cfg: Config, s: Session, w: Work, env: Env)
    requires HashHonest(step, s)
    ensures HashHonest(step, HandleWork(step, cfg, s, w, env).0)
  {
    FoldConcat(step, HASH_INIT, Prepared(step, s, w).timeline, w.tokens);
  }

  datatype Event = WorkEvent(work: Work, env: Env) | LoadEvent(load: Load, env: Env)

  function Handle(step: Step, cfg: Config, s: Session, e: Event): (Session, Reply) {
    match e
    case WorkEvent(w, env) => HandleWork(step, cfg, s, w, env)
    case LoadEvent(l, env) => HandleLoad(step, cfg, s, l, env)
  }

  /** The session after a history of frames, whatever they contain and however the evaluator behaves. */
  function After(step: Step, cfg: Config, history: seq<Event>): Session {
    if history == [] then NEW_SESSION
    else Handle(step, cfg, After(step, cfg, history[..|history| - 1]), history[|history| - 1]).0
  }

  lemma {:induction false} EveryHistoryIsHonest(step: Step, cfg: Config, history: seq<Event>)
    ensures HashHonest(step, After(step, cfg, history))
  {
    if history != [] {
      var k := |history| - 1;
      EveryHistoryIsHonest(step, cfg, history[..k]);
      if history[k].WorkEvent? {
        HonestWork(step, cfg, After(step, cfg, history[..k]), history[k].work, history[k].env);
      }
    }
  }

  /** A span is evaluated only on a timeline whose hash is the announced prefix hash, at the announced position;
      afterwards the session's hash is the announced result hash and is the hash of its timeline. */
  lemma {:induction false} EvaluatedOnMatchingPrefix(step: Step, cfg: Config, s: Session, w: Work, env: Env)
    requires HashHonest(step, s)
    requires HandleWork(step, cfg, s, w, env).1 == Done
    ensures var base := if w.reset then [] else s.timeline;
      var s' := HandleWork(step, cfg, s, w, env).0;
      && Fold(step, HASH_INIT, base) == w.prefixHash && |base| == w.pos0
      && s'.timeline == base + w.tokens && s'.hashValid
      && s'.hash == w.resultHash == Fold(step, HASH_INIT, s'.timeline)
  {
    HonestWork(step, cfg, s, w, env);
  }

  // ---------- A span over a whole route ----------

  /** input is the hidden state that reaches the hop. */
  datatype Hop = Hop(cfg: Config, session: Session, env: Env, input: seq<u8>)

  /** The frame as it reaches a hop: the same span, hashes and route, the hop's own place, layer range and flags. */
  function Forwarded(w: Work, h: Hop, index: u32, outputLogits: bool): Work {
    w.(layerStart := h.cfg.layerStart, layerEnd := h.cfg.layerEnd, inputHc := h.cfg.layerStart != 0,
       outputLogits := outputLogits, routeIndex := index, input := h.input)
  }

  /** The frame as it reaches the first of the remaining hops. */
  function FirstFrame(w: Work, hops: seq<Hop>): Work
    requires 0 < |hops| <= w.routeCount
  {
    Forwarded(w, hops[0], w.routeCount - |hops|, w.outputLogits && |hops| == 1)
  }

  /** Every hop in turn evaluates the span; the first refusal ends it. */
  function RunSpan(step: Step, hops: seq<Hop>, w: Work): (r: (seq<Session>, bool))
    requires |hops| <= w.routeCount
    ensures |r.0| == |hops|
  {
    if hops == [] then ([], true)
    else
      var h := hops[0];
      var (s, reply) := HandleWork(step, h.cfg, h.session, FirstFrame(w, hops), h.env);
      if reply == Refused then ([s] + Untouched(hops[1..]), false)
      else
        var (rest, ok) := RunSpan(step, hops[1..], w);
        ([s] + rest, ok)
  }

  function Untouched(hops: seq<Hop>): (r: seq<Session>)
    ensures |r| == |hops|
  {
    seq(|hops|, i requires 0 <= i < |hops| => hops[i].session)
  }

  /** The coordinator's hashes for tokens appended to the first pos0 tokens of its timeline; a reset span
      must start at position 0, any other span needs a timeline of at least pos0 tokens. */
  predicate CoordinatorSpan(step: Step, timeline: seq<u32>, w: Work) {
    && (if w.reset then w.pos0 == 0 && w.prefixHash == HASH_INIT
        else w.pos0 <= |timeline| && w.prefixHash == Fold(step, HASH_INIT, timeline[..w.pos0]))
    && w.resultHash == Fold(step, w.prefixHash, w.tokens)
  }

  /** The coordinator's tokens before the span. */
  function Base(timeline: seq<u32>, w: Work): seq<u32> {
    if w.reset then [] else if w.pos0 <= |timeline| then timeline[..w.pos0] else timeline
  }

  /** No other sequence of the same length hashes like t. */
  ghost predicate NoCollision(step: Step, t: seq<u32>) {
    forall u :: |u| == |t| && Fold(step, HASH_INIT, u) == Fold(step, HASH_INIT, t) ==> u == t
  }

  /** The session has the coordinator's result hash over its own timeline, of the right length; if the prefix hash has no
      collision its timeline is the coordinator's prefix and the span. */
  ghost predicate Agrees(step: Step, timeline: seq<u32>, w: Work, s: Session) {
    && s.hashValid && s.hash == w.resultHash == Fold(step, HASH_INIT, s.timeline)
    && s.hash == Fold(step, HASH_INIT, Base(timeline, w) + w.tokens)
    && |s.timeline| == w.pos0 + |w.tokens|
    && (NoCollision(step, Base(timeline, w)) ==> s.timeline == Base(timeline, w) + w.tokens)
  }

  /** A successful span succeeded at the first hop and on the rest of the route. */
  lemma {:induction false} SpanSucceeds(step: Step, hops: seq<Hop>, w: Work)
    requires 0 < |hops| <= w.routeCount
    ensures var h := hops[0];
      var r := HandleWork(step, h.cfg, h.session, FirstFrame(w, hops), h.env);
      RunSpan(step, hops, w).1 ==>
        && r.1 == Done && RunSpan(step, hops[1..], w).1
        && RunSpan(step, hops, w).0 == [r.0] + RunSpan(step, hops[1..], w).0
  {
    hide HandleWork;
  }

  lemma {:induction false} FirstHopAgrees(step: Step, hops: seq<Hop>, timeline: seq<u32>, w: Work)
    requires 0 < |hops| <= w.routeCount && HashHonest(step, hops[0].session) && CoordinatorSpan(step, timeline, w)
    ensures var r := HandleWork(step, hops[0].cfg, hops[0].session, FirstFrame(w, hops), hops[0].env);
      r.1 == Done ==> Agrees(step, timeline, w, r.0)
  {
    hide HandleWork, Fold, HashHonest;
    var h := hops[0];
    if HandleWork(step, h.cfg, h.session, FirstFrame(w, hops), h.env).1 == Done {
      EvaluatedOnMatchingPrefix(step, h.cfg, h.session, FirstFrame(w, hops), h.env);
      FoldConcat(step, HASH_INIT, Base(timeline, w), w.tokens);
    }
  }

  ghost predicate AllHonest(step: Step, hops: seq<Hop>) {
    forall k :: 0 <= k < |hops| ==> HashHonest(step, hops[k].session)
  }

  lemma {:induction false} HonestTail(step: Step, hops: seq<Hop>)
    requires hops != [] && AllHonest(step, hops)
    ensures HashHonest(step, hops[0].session) && AllHonest(step, hops[1..])
  {
    hide HashHonest;
  }

  /** After a successful span every hop agrees with the coordinator. */
  lemma {:induction false} HopsAgree(step: Step, hops: seq<Hop>, timeline: seq<u32>, w: Work, i: nat)
    requires AllHonest(step, hops) && CoordinatorSpan(step, timeline, w)
    requires i < |hops| <= w.routeCount && RunSpan(step, hops, w).1
    ensures Agrees(step, timeline, w, RunSpan(step, hops, w).0[i])
    decreases |hops|
  {
    hide RunSpan, HandleWork, FirstFrame, Fold, HashHonest, AllHonest, CoordinatorSpan, Agrees;
    SpanSucceeds(step, hops, w);
    HonestTail(step, hops);
    if i == 0 {
      FirstHopAgrees(step, hops, timeline, w);
    } else {
      HopsAgree(step, hops[1..], timeline, w, i - 1);
    }
  }

  /** The same after any history: hop k has seen an arbitrary sequence of frames, resets, failures and loads. */
  lemma {:induction false} HopsAgreeAfterAnyHistory(
      step: Step, hops: seq<Hop>, histories: seq<seq<Event>>, timeline: seq<u32>, w: Work)
    requires |histories| == |hops| <= w.routeCount
    requires forall k :: 0 <= k < |hops| ==> hops[k].session == After(step, hops[k].cfg, histories[k])
    requires CoordinatorSpan(step, timeline, w) && NoCollision(step, Base(timeline, w))
    requires RunSpan(step, hops, w).1
    ensures forall i :: 0 <= i < |hops| ==>
      RunSpan(step, hops, w).0[i] == Session(Base(timeline, w) + w.tokens, w.resultHash, true)
  {
    hide Fold, RunSpan, HandleWork;
    forall k | 0 <= k < |hops| ensures HashHonest(step, hops[k].session) {
      EveryHistoryIsHonest(step, hops[k].cfg, histories[k]);
    }
    forall i | 0 <= i < |hops|
      ensures RunSpan(step, hops, w).0[i] == Session(Base(timeline, w) + w.tokens, w.resultHash, true)
    {
      HopsAgree(step, hops, timeline, w, i);
    }
  }

  // ---------- Which frames are evaluated ----------

  /** A WORK frame is evaluated exactly when it is for this model, these layers and this vocabulary, its span fits the
      context, it brings hidden states exactly for layers behind the first, asks for logits only where the head is, its
      hashes fit its tokens, and the session, or the reset one, has the announced length and prefix hash. */
  lemma {:induction false} DoneIff(step: Step, cfg: Config, s: Session, w: Work, env: Env)
    requires HashHonest(step, s)
    ensures HandleWork(step, cfg, s, w, env).1 == Done <==>
      && w.sizesOk && w.flagsValid && cfg.frameOk(w)
      && w.modelId == cfg.modelId && w.layerStart == cfg.layerStart && w.layerEnd == cfg.layerEnd
      && 0 < |w.tokens| && w.pos0 + |w.tokens| <= cfg.ctxSize && (forall i :: 0 <= i < |w.tokens| ==> w.tokens[i] < cfg.vocab)
      && (if w.layerStart == 0 then !w.inputHc else w.inputHc)
      && (w.outputLogits ==> cfg.hasOutput && w.layerEnd + 1 == cfg.nLayers)
      && w.resultHash == Fold(step, w.prefixHash, w.tokens)
      && (if w.reset then env.resetOk && w.pos0 == 0 && w.prefixHash == HASH_INIT
          else w.pos0 == |s.timeline| && w.prefixHash == Fold(step, HASH_INIT, s.timeline))
      && env.evalOk
    ensures HandleWork(step, cfg, s, w, env).1 == Done ==>
      HandleWork(step, cfg, s, w, env).0 == Session((if w.reset then [] else s.timeline) + w.tokens, w.resultHash, true)
  {
    hide Fold;
    FoldNothing(step);
  }

  lemma {:induction false} FoldNothing(step: Step)
    ensures Fold(step, HASH_INIT, []) == HASH_INIT
  {
  }

  /** A snapshot is taken over exactly when it is for this model and these layers, its tokens are of the vocabulary, fit
      the context and have the announced hash, and the engine loads it; the session then has its tokens and hash. */
  lemma {:induction false} LoadDoneIff(step: Step, cfg: Config, s: Session, l: Load, env: Env)
    ensures HandleLoad(step, cfg, s, l, env).1 == Done <==>
      && l.payloadOk && l.modelId == cfg.modelId && l.layerStart == cfg.layerStart && l.layerEnd == cfg.layerEnd
      && |l.tokens| <= cfg.ctxSize && (forall i :: 0 <= i < |l.tokens| ==> l.tokens[i] < cfg.vocab)
      && l.tokenHash == Fold(step, HASH_INIT, l.tokens)
      && env.loadOk
    ensures HandleLoad(step, cfg, s, l, env).1 == Done ==>
      HandleLoad(step, cfg, s, l, env).0 == Session(l.tokens, Fold(step, HASH_INIT, l.tokens), true)
  {
    hide Fold;
  }

  /** What a hop must have for its frame to be evaluated, in the fields of the span and of its configuration. */
  ghost predicate HopReady(step: Step, timeline: seq<u32>, w: Work, h: Hop, frame: Work) {
    && h.cfg.modelId == w.modelId && w.pos0 + |w.tokens| <= h.cfg.ctxSize
    && (forall i :: 0 <= i < |w.tokens| ==> w.tokens[i] < h.cfg.vocab)
    && (frame.outputLogits ==> h.cfg.hasOutput && h.cfg.layerEnd + 1 == h.cfg.nLayers)
    && h.cfg.frameOk(frame)
    && h.env.evalOk && (w.reset ==> h.env.resetOk)
    && HashHonest(step, h.session) && (!w.reset ==> h.session.timeline == Base(timeline, w))
  }

  ghost predicate AllReady(step: Step, timeline: seq<u32>, w: Work, hops: seq<Hop>)
    requires |hops| <= w.routeCount
  {
    forall i :: 0 <= i < |hops| ==> HopReady(step, timeline, w, hops[i], FirstFrame(w, hops[i..]))
  }

  /** Every legal span is evaluated by every hop. */
  lemma {:induction false} SpanCompletes(step: Step, hops: seq<Hop>, timeline: seq<u32>, w: Work)
    requires |hops| <= w.routeCount && CoordinatorSpan(step, timeline, w)
    requires w.tokens != [] && w.sizesOk && w.flagsValid && AllReady(step, timeline, w, hops)
    ensures RunSpan(step, hops, w).1
    decreases |hops|
  {
    if hops != [] {
      hide Fold, HashHonest, HandleWork;
      assert hops[0..] == hops;
      assert HopReady(step, timeline, w, hops[0], FirstFrame(w, hops));
      FirstHopDone(step, hops, timeline, w);
      ReadyTail(step, timeline, w, hops);
      SpanCompletes(step, hops[1..], timeline, w);
    }
  }

  lemma {:induction false} ReadyTail(step: Step, timeline: seq<u32>, w: Work, hops: seq<Hop>)
    requires 0 < |hops| <= w.routeCount && AllReady(step, timeline, w, hops)
    ensures AllReady(step, timeline, w, hops[1..])
  {
    hide HopReady, FirstFrame;
    var rest := hops[1..];
    forall i | 0 <= i < |rest| ensures HopReady(step, timeline, w, rest[i], FirstFrame(w, rest[i..])) {
      assert rest[i..] == hops[i + 1..] && rest[i] == hops[i + 1];
      assert HopReady(step, timeline, w, hops[i + 1], FirstFrame(w, hops[i + 1..]));
    }
  }

  lemma {:induction false} FirstHopDone(step: Step, hops: seq<Hop>, timeline: seq<u32>, w: Work)
    requires 0 < |hops| <= w.routeCount && CoordinatorSpan(step, timeline, w)
    requires w.tokens != [] && w.sizesOk && w.flagsValid && HopReady(step, timeline, w, hops[0], FirstFrame(w, hops))
    ensures HandleWork(step, hops[0].cfg, hops[0].session, FirstFrame(w, hops), hops[0].env).1 == Done
  {
    hide Fold, HandleWork;
    DoneIff(step, hops[0].cfg, hops[0].session, FirstFrame(w, hops), hops[0].env);
  }

  /** The plan's hop and the worker that runs it: same layers, logits asked of the last hop and only there, and hidden
      states of the size of the span. */
  ghost predicate HopFits(
      plan: seq<RouteBlob.Hop>, w: Work, spanValues: nat -> nat, h: Hop, i: nat)
  {
    && i < |plan| && h.cfg.layerStart == plan[i].start && h.cfg.layerEnd == plan[i].end
    && (plan[i].flags == RouteBlob.OUTPUT_LOGITS <==> w.outputLogits && i + 1 == |plan|)
    && (if plan[i].start == 0 then h.input == []
        else Activation.WireBytes(w.inputBits, spanValues(|w.tokens|)) == Some(|h.input|))
  }

  /** A planned route with the source's frame checks: the frame that reaches hop i passes them. */
  lemma {:induction false} PlannedFramePasses(
      plan: seq<RouteBlob.Hop>, cfg: Config, spanValues: nat -> nat, hops: seq<Hop>, w: Work, i: nat)
    requires RouteBlob.RouteOk(plan, cfg.nLayers) && i < |plan| == |hops| == w.routeCount && w.route == RouteBlob.Blob(plan)
    requires HopFits(plan, w, spanValues, hops[i], i) && spanValues(|w.tokens|) < 0x4000_0000
    ensures WireConfig(cfg, spanValues).frameOk(FirstFrame(w, hops[i..]))
  {
    hide RouteBlob.RouteOk, RouteBlob.Blob, RouteBlob.RouteChecks;
    var f := FirstFrame(w, hops[i..]);
    assert hops[i..][0] == hops[i];
    assert RouteBlob.FrameFor(plan, f.route, f.routeCount, f.routeIndex, cfg.nLayers, f.layerStart, f.layerEnd, f.outputLogits);
    RouteBlob.RouteChecksIff(f.route, f.routeCount, f.routeIndex, cfg.nLayers, f.layerStart, f.layerEnd, f.outputLogits);
  }

  /** The worker of hop i can take the span: its model, context and vocabulary, a head where logits are asked, an evaluator
      that succeeds, and the coordinator's tokens so far. */
  ghost predicate HopAble(step: Step, timeline: seq<u32>, w: Work, h: Hop, last: bool) {
    && h.cfg.modelId == w.modelId && w.pos0 + |w.tokens| <= h.cfg.ctxSize
    && (forall i :: 0 <= i < |w.tokens| ==> w.tokens[i] < h.cfg.vocab)
    && (w.outputLogits && last ==> h.cfg.hasOutput)
    && h.env.evalOk && (w.reset ==> h.env.resetOk)
    && HashHonest(step, h.session) && (!w.reset ==> h.session.timeline == Base(timeline, w))
  }

  /** A span over a planned route, with the source's frame checks at every worker, is evaluated by every hop. */
  lemma {:induction false} PlannedSpanCompletes(
      step: Step, plan: seq<RouteBlob.Hop>, nLayers: u32, cfgs: seq<Config>, spanValues: nat -> nat,
      hops: seq<Hop>, timeline: seq<u32>, w: Work)
    requires 0 < |plan| == |hops| == |cfgs| == w.routeCount
    requires RouteBlob.RouteOk(plan, nLayers) && w.route == RouteBlob.Blob(plan)
    requires CoordinatorSpan(step, timeline, w) && w.tokens != [] && w.sizesOk && w.flagsValid
    requires spanValues(|w.tokens|) < 0x4000_0000
    requires forall i :: 0 <= i < |hops| ==>
      && cfgs[i].nLayers == nLayers && hops[i].cfg == WireConfig(cfgs[i], spanValues)
      && HopFits(plan, w, spanValues, hops[i], i) && HopAble(step, timeline, w, hops[i], i + 1 == |hops|)
    ensures RunSpan(step, hops, w).1
  {
    hide Fold, HashHonest, RouteBlob.Blob, RunSpan, CoordinatorSpan;
    forall i | 0 <= i < |hops| ensures HopReady(step, timeline, w, hops[i], FirstFrame(w, hops[i..])) {
      PlannedFramePasses(plan, cfgs[i], spanValues, hops, w, i);
      assert hops[i..][0] == hops[i] && RouteBlob.HopOk(plan[i], nLayers);
    }
    SpanCompletes(step, hops, timeline, w);
  }
}
