/** Pipelined prefill (distributed.c:3103-3419, 3540-3775): a producer evaluates prompt chunks and fills ring
    slots, a sender transmits them in order, a reader checks the results.  Each critical section is one step of
    the system below, and what happens between two critical sections of a thread is a state of its own. */
module Prefill {
  import opened Words
  import opened TokenHash

  /** One pipelined call.  chunkCap <= total is guaranteed by dist_coordinator_can_pipeline_prefill. */
  datatype Call = Call(
    step: Step, prompt: seq<u32>, spanStart: nat, total: nat, chunkCap: nat,
    slotCount: nat, window: nat, firstRequest: nat, resetFirst: bool, ackOnly: bool)

  predicate CallValid(c: Call) {
    && 0 < c.chunkCap && 0 < c.total && c.spanStart + c.total <= |c.prompt|
    && 0 < c.slotCount && 0 < c.window
  }

  /** A ring slot, and the WORK frame sent from it. */
  datatype Chunk = Chunk(
    pos: nat, tokens: seq<u32>, requestId: nat, prefixHash: Hash, resultHash: Hash, reset: bool, ackOnly: bool)

  datatype Kind = Ack | Hidden | Logits

  /** What the reader gets for one request: a transport or remote error, or a result frame.  sizeOk says that the
      payload has the size its kind requires (hidden states only where the route ends without logits). */
  datatype Result = Failed | Result(resultHash: Hash, kind: Kind, sizeOk: bool)

  // ---------- The chunks of a call ----------

  function Count(c: Call): nat
    requires c.chunkCap > 0
  {
    (c.total + c.chunkCap - 1) / c.chunkCap
  }

  function Offset(c: Call, i: nat): nat {
    var o := i * c.chunkCap;
    if o < c.total then o else c.total
  }

  /** Hash of the prompt up to the start of chunk i. */
  function HashAt(c: Call, i: nat): Hash
    requires CallValid(c)
  {
    Fold(c.step, HASH_INIT, c.prompt[..c.spanStart + Offset(c, i)])
  }

  /** Chunk i as the specification wants it. */
  function ChunkAt(c: Call, i: nat): Chunk
    requires CallValid(c)
  {
    OffsetGrows(c, i);
    var a, b := c.spanStart + Offset(c, i), c.spanStart + Offset(c, i + 1);
    Chunk(a, c.prompt[a..b], c.firstRequest + i, HashAt(c, i), HashAt(c, i + 1),
          c.resetFirst && i == 0, c.ackOnly && b < c.spanStart + c.total)
  }

  lemma {:induction false} OffsetGrows(c: Call, i: nat)
    ensures Offset(c, i) <= Offset(c, i + 1) <= c.total
  {
    assert (i + 1) * c.chunkCap == i * c.chunkCap + c.chunkCap;
  }

  /** Exactly the chunks 0..Count - 1 are non-empty: they start before the end of the span, and the next would not. */
  lemma {:induction false} CountExact(c: Call, i: nat)
    requires CallValid(c)
    ensures i < Count(c) <==> Offset(c, i) < c.total
    ensures i < Count(c) ==> Offset(c, i) < Offset(c, i + 1)
    ensures Offset(c, 0) == 0 && Offset(c, Count(c)) == c.total && 0 < Count(c)
  {
    var q, n := c.chunkCap, Count(c);
    assert (i + 1) * q == i * q + q;
    var r := (c.total + q - 1) % q;
    assert n * q + r == c.total + q - 1 && 0 <= r < q;
    if i < n { MulMono(i, n - 1, q); assert (n - 1) * q == n * q - q; }
    if i >= n { MulMono(n, i, q); }
  }

  /** Consecutive chunks abut and chain their hashes: the result hash of one is the prefix hash of the next,
      and each result hash is the fold of the chunk's tokens from its prefix hash. */
  lemma {:induction false} ChunksChain(c: Call, i: nat)
    requires CallValid(c)
    ensures ChunkAt(c, i + 1).pos == ChunkAt(c, i).pos + |ChunkAt(c, i).tokens|
    ensures ChunkAt(c, i + 1).prefixHash == ChunkAt(c, i).resultHash
    ensures ChunkAt(c, i).resultHash == Fold(c.step, ChunkAt(c, i).prefixHash, ChunkAt(c, i).tokens)
  {
    hide Offset, Fold;
    OffsetGrows(c, i);
    OffsetGrows(c, i + 1);
    var a, b := c.spanStart + Offset(c, i), c.spanStart + Offset(c, i + 1);
    assert c.prompt[..b] == c.prompt[..a] + c.prompt[a..b];
    FoldConcat(c.step, HASH_INIT, c.prompt[..a], c.prompt[a..b]);
  }

  /** The loop that precomputes the hash the reader expects of each chunk: one pass over the span, a chunk at a time. */
  method ExpectedHashes(c: Call) returns (hashes: seq<Hash>)
    requires CallValid(c)
    ensures |hashes| == Count(c) && forall i :: 0 <= i < Count(c) ==> hashes[i] == HashAt(c, i + 1)
  {
    hide Offset, Count, HashAt, ChunkAt;
    hashes := [];
    var spanEnd := c.spanStart + c.total;
    var count := ChunkCount(c);
    var hash := UpdateSpan(c.step, HASH_INIT, c.prompt[..c.spanStart]);
    var pos := c.spanStart;
    FirstHash(c);
    for i := 0 to count
      invariant pos == c.spanStart + Offset(c, i) && hash == HashAt(c, i)
      invariant |hashes| == i && forall k :: 0 <= k < i ==> hashes[k] == HashAt(c, k + 1)
    {
      ChunkTokens(c, i);
      ChunksChain(c, i);
      ChunkHashes(c, i);
      NextOffset(c, i);
      var remaining := spanEnd - pos;
      var chunk := if remaining < c.chunkCap then remaining else c.chunkCap;
      hash := UpdateSpan(c.step, hash, c.prompt[pos..pos + chunk]);
      hashes := hashes + [hash];
      pos := pos + chunk;
    }
  }

  method ChunkCount(c: Call) returns (n: nat)
    requires CallValid(c)
    ensures n == Count(c)
  {
    n := (c.total + c.chunkCap - 1) / c.chunkCap;
  }

  lemma {:induction false} FirstHash(c: Call)
    requires CallValid(c)
    ensures Offset(c, 0) == 0 && HashAt(c, 0) == Fold(c.step, HASH_INIT, c.prompt[..c.spanStart])
  {
  }

  lemma {:induction false} ChunkHashes(c: Call, i: nat)
    requires CallValid(c)
    ensures ChunkAt(c, i).prefixHash == HashAt(c, i) && ChunkAt(c, i).resultHash == HashAt(c, i + 1)
  {
  }

  /** A chunk takes chunkCap tokens, or what is left of the span. */
  lemma {:induction false} NextOffset(c: Call, i: nat)
    requires CallValid(c) && i < Count(c)
    ensures Offset(c, i) < c.total
    ensures Offset(c, i + 1) ==
      if c.total - Offset(c, i) < c.chunkCap then c.total else Offset(c, i) + c.chunkCap
  {
    CountExact(c, i);
    assert (i + 1) * c.chunkCap == i * c.chunkCap + c.chunkCap;
  }

  /** The tokens of the first k chunks end to end. */
  function Tokens(chunks: seq<Chunk>): seq<u32> {
    if chunks == [] then [] else Tokens(chunks[..|chunks| - 1]) + chunks[|chunks| - 1].tokens
  }

  function Chunks(c: Call, k: nat): (r: seq<Chunk>)
    requires CallValid(c)
    ensures |r| == k && forall i :: 0 <= i < k ==> r[i] == ChunkAt(c, i)
  {
    seq(k, i requires 0 <= i < k => ChunkAt(c, i))
  }

  /** The chunks tile the span. */
  lemma {:induction false} ChunksTile(c: Call, k: nat)
    requires CallValid(c)
    ensures Offset(c, k) <= c.total
    ensures Tokens(Chunks(c, k)) == c.prompt[c.spanStart..c.spanStart + Offset(c, k)]
  {
    hide Offset, HashAt, ChunkAt, Tokens;
    CountExact(c, 0);
    if k > 0 {
      ChunksTile(c, k - 1);
      OffsetGrows(c, k - 1);
      ChunkTokens(c, k - 1);
      JoinParts(c.prompt, c.spanStart, c.spanStart + Offset(c, k - 1), c.spanStart + Offset(c, k));
      LastTokens(Chunks(c, k - 1), ChunkAt(c, k - 1));
      assert Chunks(c, k) == Chunks(c, k - 1) + [ChunkAt(c, k - 1)];
    } else {
      assert Chunks(c, 0) == [] && Tokens([]) == [] by { LastTokens([], ChunkAt(c, 0)); }
    }
  }

  lemma {:induction false} LastTokens(chunks: seq<Chunk>, last: Chunk)
    ensures Tokens(chunks + [last]) == Tokens(chunks) + last.tokens && Tokens([]) == []
  {
    assert (chunks + [last])[..|chunks|] == chunks;
  }

  lemma {:induction false} ChunkTokens(c: Call, i: nat)
    requires CallValid(c)
    ensures Offset(c, i) <= Offset(c, i + 1) <= c.total
    ensures ChunkAt(c, i).tokens == c.prompt[c.spanStart + Offset(c, i)..c.spanStart + Offset(c, i + 1)]
  {
    hide Offset, HashAt;
    OffsetGrows(c, i);
  }

  // ---------- The system ----------

  /** Producer: waiting for the flow window, waiting for a slot, writing slot tail, finished, or given up. */
  datatype Producer = AwaitWindow | AwaitSlot | Writing | Finished | Aborted

  /** Sender: between sends, transmitting slot head, having transmitted it, or exited. */
  datatype Sender = Idle | Sending | Sent | Exited

  datatype State = State(
    producer: Producer, submitted: nat, pos: nat, nextHash: Hash,
    slots: seq<Chunk>, head: nat, tail: nat, queued: nat,
    stop: bool, senderRc: nat, producerDone: bool, sender: Sender,
    wire: seq<Chunk>,
    received: seq<Result>, completed: nat, readerDone: bool, readerRc: nat)

  predicate Init(c: Call, s: State)
    requires CallValid(c)
  {
    && s.producer == AwaitWindow && s.submitted == 0 && s.pos == c.spanStart && s.nextHash == HashAt(c, 0)
    && |s.slots| == c.slotCount && s.head == s.tail == s.queued == 0
    && !s.stop && s.senderRc == 0 && !s.producerDone && s.sender == Idle
    && s.wire == [] && s.received == [] && s.completed == 0 && !s.readerDone && s.readerRc == 0
  }

  /** The chunk the producer builds at its current position; expected hashes are precomputed per chunk. */
  function Built(c: Call, s: State): Chunk
    requires CallValid(c) && c.spanStart <= s.pos < c.spanStart + c.total
  {
    var end := c.spanStart + c.total;
    var n := if end - s.pos < c.chunkCap then end - s.pos else c.chunkCap;
    Chunk(s.pos, c.prompt[s.pos..s.pos + n], c.firstRequest + s.submitted, s.nextHash, HashAt(c, s.submitted + 1),
          c.resetFirst && s.pos == c.spanStart, c.ackOnly && s.pos + n < end)
  }

  /** Cancelling: the producer gives up and stops the sender. */
  function Cancel(s: State): State {
    s.(producer := Aborted, producerDone := true, stop := true)
  }

  ghost predicate ProducerStep(c: Call, s: State, s': State)
    requires CallValid(c)
  {
    var end := c.spanStart + c.total;
    || (s.producer == AwaitWindow && s.pos < end && !s.readerDone && s.submitted < s.completed + c.window
        && s' == s.(producer := AwaitSlot))
    || (s.producer == AwaitWindow && s.pos < end && s.readerDone && s' == Cancel(s))
    || (s.producer == AwaitSlot && !s.stop && s.senderRc == 0 && s.queued != c.slotCount && s' == s.(producer := Writing))
    || (s.producer == AwaitSlot && (s.stop || s.senderRc != 0) && s' == Cancel(s))
    // Local evaluation, which writes the hidden state into slot tail, may fail.
    || (s.producer == Writing && s' == Cancel(s))
    // Filling in the slot and handing it over.
    || (s.producer == Writing && c.spanStart <= s.pos < end && s.tail < |s.slots| && !s.stop && s.senderRc == 0
        && s' == s.(producer := AwaitWindow, slots := s.slots[s.tail := Built(c, s)],
                    tail := (s.tail + 1) % c.slotCount, queued := s.queued + 1,
                    submitted := s.submitted + 1, nextHash := Built(c, s).resultHash,
                    pos := s.pos + |Built(c, s).tokens|))
    || (s.producer == AwaitWindow && s.pos == end && s' == s.(producer := Finished, producerDone := true))
  }

  ghost predicate SenderStep(c: Call, s: State, s': State)
    requires CallValid(c)
  {
    || (s.sender == Idle && !s.stop && s.queued != 0 && s' == s.(sender := Sending))
    || (s.sender == Idle && (s.stop || (s.queued == 0 && s.producerDone)) && s' == s.(sender := Exited))
    || (s.sender == Sending && s.head < |s.slots| && s' == s.(sender := Sent, wire := s.wire + [s.slots[s.head]]))
    || (s.sender == Sending && s' == s.(sender := Exited, senderRc := 1, stop := true))
    || (s.sender == Sent && 0 < s.queued
        && s' == s.(sender := Idle, head := (s.head + 1) % c.slotCount, queued := s.queued - 1))
  }

  /** The reader's verdict on result i. */
  predicate Accepts(c: Call, i: nat, r: Result)
    requires CallValid(c)
  {
    r.Result? && r.resultHash == HashAt(c, i + 1) && r.sizeOk && (r.kind == Ack ==> i + 1 != Count(c))
  }

  ghost predicate ReaderStep(c: Call, s: State, s': State)
    requires CallValid(c)
  {
    var i := |s.received|;
    exists r ::
      && !s.readerDone && i < Count(c)
      && s' == if Accepts(c, i, r)
               then s.(received := s.received + [r], completed := i + 1, readerDone := i + 1 == Count(c))
               else s.(readerRc := 1, readerDone := true)
  }

  ghost predicate Next(c: Call, s: State, s': State)
    requires CallValid(c)
  {
    ProducerStep(c, s, s') || SenderStep(c, s, s') || ReaderStep(c, s, s')
  }

  ghost predicate IsRun(c: Call, run: seq<State>)
    requires CallValid(c)
  {
    && run != [] && Init(c, run[0])
    && forall i :: 0 <= i < |run| - 1 ==> Next(c, run[i], run[i + 1])
  }

  /** The call returned 0: all threads joined, no error anywhere. */
  predicate Success(s: State) {
    s.producer == Finished && s.sender == Exited && s.senderRc == 0 && s.readerDone && s.readerRc == 0
  }

  // ---------- The invariant ----------

  /** Slot i places after slot h on a ring of n slots, for i <= n. */
  function Slot(h: nat, i: nat, n: nat): nat
    requires h < n && i <= n
  {
    if h + i < n then h + i else h + i - n
  }

  /** The ring: the queued slots are the ones from head on, tail is the slot after them. */
  ghost predicate RingOk(c: Call, s: State)
    requires CallValid(c)
  {
    && |s.slots| == c.slotCount && s.head < c.slotCount && s.queued <= c.slotCount
    && s.tail == Slot(s.head, s.queued, c.slotCount)
    && (s.producer == Writing ==> s.queued < c.slotCount)
    && (s.sender in {Sending, Sent} ==> 0 < s.queued)
  }

  /** Chunks completed by the sender, and those that left through the wire. */
  function Drained(s: State): nat {
    if s.sender == Sent && s.wire != [] then |s.wire| - 1 else |s.wire|
  }

  /** The queued slots hold the chunks that come next on the wire. */
  ghost predicate SlotsOk(c: Call, s: State)
    requires CallValid(c) && RingOk(c, s)
  {
    forall i :: 0 <= i < s.queued ==> s.slots[Slot(s.head, i, c.slotCount)] == ChunkAt(c, Drained(s) + i)
  }

  ghost predicate WireOk(c: Call, s: State)
    requires CallValid(c)
  {
    forall i :: 0 <= i < |s.wire| ==> s.wire[i] == ChunkAt(c, i)
  }

  ghost predicate FlowOk(c: Call, s: State)
    requires CallValid(c) && RingOk(c, s)
  {
    && s.submitted <= Count(c) && s.pos == c.spanStart + Offset(c, s.submitted) && s.nextHash == HashAt(c, s.submitted)
    && (s.sender == Sent ==> 0 < |s.wire|)
    && s.submitted == Drained(s) + s.queued
    && SlotsOk(c, s) && WireOk(c, s)
    && s.submitted + (if s.producer in {AwaitSlot, Writing} then 1 else 0) <= s.completed + c.window
    && (s.producer in {AwaitSlot, Writing} ==> s.submitted < Count(c))
  }

  ghost predicate ReaderOk(c: Call, s: State)
    requires CallValid(c)
  {
    && s.completed == |s.received| <= Count(c)
    && (forall i :: 0 <= i < |s.received| ==> Accepts(c, i, s.received[i]))
    && (s.readerRc == 0 ==> (s.readerDone <==> |s.received| == Count(c)))
    && (s.readerRc != 0 ==> s.readerDone)
  }

  ghost predicate EndOk(c: Call, s: State)
    requires CallValid(c)
  {
    && (s.producer == Finished ==> s.submitted == Count(c))
    && (s.producerDone <==> s.producer in {Finished, Aborted})
    && (s.producer == Aborted ==> s.stop)
    && (s.stop ==> s.producer == Aborted || s.senderRc != 0)
    && (s.sender == Exited && s.senderRc == 0 ==> s.producer in {Finished, Aborted})
    && (s.sender == Exited && s.senderRc == 0 && s.producer == Finished ==> s.queued == 0)
  }

  ghost predicate Inv(c: Call, s: State)
    requires CallValid(c)
  {
    RingOk(c, s) && FlowOk(c, s) && ReaderOk(c, s) && EndOk(c, s)
  }

  lemma {:induction false} InitInv(c: Call, s: State)
    requires CallValid(c) && Init(c, s)
    ensures Inv(c, s)
  {
    CountExact(c, 0);
  }

  lemma {:induction false} NextSlot(x: nat, n: nat)
    requires x < n
    ensures (x + 1) % n == Slot(x, 1, n)
  {
    if x + 1 < n {
      assert (x + 1) % n == x + 1;
    }
  }

  lemma {:induction false} BuiltIsNext(c: Call, s: State)
    requires CallValid(c) && s.submitted < Count(c)
    requires s.pos == c.spanStart + Offset(c, s.submitted) && s.nextHash == HashAt(c, s.submitted)
    ensures c.spanStart <= s.pos < c.spanStart + c.total
    ensures Built(c, s) == ChunkAt(c, s.submitted)
    ensures s.pos + |Built(c, s).tokens| == c.spanStart + Offset(c, s.submitted + 1)
  {
    var i := s.submitted;
    CountExact(c, i);
    OffsetGrows(c, i);
    assert (i + 1) * c.chunkCap == i * c.chunkCap + c.chunkCap;
    CountExact(c, 0);
    if i > 0 {
      MulMono(1, i, c.chunkCap);
    }
  }

  /** Handing over a chunk. */
  lemma {:induction false} EnqueueInv(c: Call, s: State, s': State)
    requires CallValid(c) && Inv(c, s) && s.producer == Writing
    requires c.spanStart <= s.pos < c.spanStart + c.total && !s.stop && s.senderRc == 0
    requires s' == s.(producer := AwaitWindow, slots := s.slots[s.tail := Built(c, s)],
                      tail := (s.tail + 1) % c.slotCount, queued := s.queued + 1,
                      submitted := s.submitted + 1, nextHash := Built(c, s).resultHash,
                      pos := s.pos + |Built(c, s).tokens|)
    ensures Inv(c, s')
  {
    hide Offset, Count, HashAt, ChunkAt, Accepts, Built;
    var n := c.slotCount;
    BuiltIsNext(c, s);
    BuiltHash(c, s);
    NextSlot(s.tail, n);
    forall i | 0 <= i < s'.queued ensures s'.slots[Slot(s'.head, i, n)] == ChunkAt(c, Drained(s') + i) {
      if i < s.queued {
        assert Slot(s.head, i, n) != s.tail;
        assert s.slots[Slot(s.head, i, n)] == ChunkAt(c, Drained(s) + i);
      }
    }
    forall i | 0 <= i < |s.received| ensures Accepts(c, i, s'.received[i]) {}
  }

  lemma {:induction false} BuiltHash(c: Call, s: State)
    requires CallValid(c) && c.spanStart <= s.pos < c.spanStart + c.total
    ensures Built(c, s).resultHash == HashAt(c, s.submitted + 1)
  {
  }

  /** The sender is done with slot head. */
  lemma {:induction false} DequeueInv(c: Call, s: State, s': State)
    requires CallValid(c) && Inv(c, s) && s.sender == Sent && 0 < s.queued
    requires s' == s.(sender := Idle, head := (s.head + 1) % c.slotCount, queued := s.queued - 1)
    ensures Inv(c, s')
  {
    hide Offset, Count, HashAt, ChunkAt, Accepts;
    var n := c.slotCount;
    NextSlot(s.head, n);
    forall i | 0 <= i < s'.queued ensures s'.slots[Slot(s'.head, i, n)] == ChunkAt(c, Drained(s') + i) {
      assert Slot(s'.head, i, n) == Slot(s.head, i + 1, n);
      assert s.slots[Slot(s.head, i + 1, n)] == ChunkAt(c, Drained(s) + (i + 1));
    }
  }

  /** The slots and the wire do not depend on the rest of the state. */
  lemma {:induction false} SameRing(c: Call, s: State, s': State)
    requires CallValid(c) && RingOk(c, s) && SlotsOk(c, s) && WireOk(c, s) && RingOk(c, s')
    requires s'.slots == s.slots && s'.head == s.head && s'.queued == s.queued && s'.wire == s.wire
    requires Drained(s') == Drained(s)
    ensures SlotsOk(c, s') && WireOk(c, s')
  {
    hide ChunkAt, RingOk;
  }

  /** A producer step that touches neither the ring nor the position. */
  lemma {:induction false} QuietInv(c: Call, s: State, s': State)
    requires CallValid(c) && Inv(c, s)
    requires s' == s.(producer := s'.producer, producerDone := s'.producerDone, stop := s'.stop)
    requires s'.producer == Writing ==> s.queued < c.slotCount
    requires s'.producer in {AwaitSlot, Writing} ==> s.submitted < Count(c) && s.submitted < s.completed + c.window
    requires EndOk(c, s')
    ensures Inv(c, s')
  {
    hide Offset, Count, HashAt, ChunkAt, Accepts, EndOk, SlotsOk, WireOk;
    SameRing(c, s, s');
  }

  lemma {:induction false} ProducerInv(c: Call, s: State, s': State)
    requires CallValid(c) && Inv(c, s) && ProducerStep(c, s, s')
    ensures Inv(c, s')
  {
    CountExact(c, s.submitted);
    if s.producer == Writing && !s'.stop {
      hide Offset, Count, HashAt, ChunkAt, Accepts, Built, SlotsOk, WireOk, ReaderOk;
      EnqueueInv(c, s, s');
    } else {
      assert s.submitted < Count(c) <==> s.pos < c.spanStart + c.total;
      hide Offset, Count, HashAt, ChunkAt, Accepts, Built, SlotsOk, WireOk, ReaderOk, ProducerStep, EndOk;
      ProducerQuiet(c, s, s');
      QuietInv(c, s, s');
    }
  }

  /** What the steps other than handing over a chunk do. */
  lemma {:induction false} ProducerQuiet(c: Call, s: State, s': State)
    requires CallValid(c) && ProducerStep(c, s, s') && !(s.producer == Writing && !s'.stop)
    requires EndOk(c, s) && s.queued <= c.slotCount && s.submitted <= Count(c)
    requires s.submitted < Count(c) <==> s.pos < c.spanStart + c.total
    requires s.producer in {AwaitSlot, Writing} ==> s.submitted < Count(c) && s.submitted < s.completed + c.window
    ensures s' == s.(producer := s'.producer, producerDone := s'.producerDone, stop := s'.stop)
    ensures s'.producer == Writing ==> s.queued < c.slotCount
    ensures s'.producer in {AwaitSlot, Writing} ==> s.submitted < Count(c) && s.submitted < s.completed + c.window
    ensures EndOk(c, s')
  {
    hide Count, Built, CallValid;
  }

  lemma {:induction false} TransmitInv(c: Call, s: State, s': State)
    requires CallValid(c) && Inv(c, s) && s.sender == Sending
    requires s' == s.(sender := Sent, wire := s.wire + [s.slots[s.head]])
    ensures Inv(c, s')
  {
    hide Offset, Count, HashAt, ChunkAt, Accepts;
    assert s.slots[Slot(s.head, 0, c.slotCount)] == ChunkAt(c, Drained(s) + 0);
  }

  lemma {:induction false} SenderInv(c: Call, s: State, s': State)
    requires CallValid(c) && Inv(c, s) && SenderStep(c, s, s')
    ensures Inv(c, s')
  {
    hide Offset, Count, HashAt, ChunkAt, ReaderOk, SlotsOk, WireOk, Accepts, FlowOk;
    if s.sender == Sent {
      DequeueInv(c, s, s');
    } else if s'.sender == Sent {
      TransmitInv(c, s, s');
    } else {
      SenderQuietInv(c, s, s');
    }
  }

  lemma {:induction false} SenderQuietInv(c: Call, s: State, s': State)
    requires CallValid(c) && Inv(c, s) && s.sender in {Idle, Sending} && s'.sender in {Sending, Exited}
    requires s' == s.(sender := s'.sender, senderRc := s'.senderRc, stop := s'.stop)
    requires s'.sender == Sending ==> 0 < s.queued
    requires EndOk(c, s')
    ensures Inv(c, s')
  {
    hide Offset, Count, HashAt, ChunkAt, Accepts, EndOk, SlotsOk, WireOk;
    SameRing(c, s, s');
  }

  lemma {:induction false} ReaderInv(c: Call, s: State, s': State)
    requires CallValid(c) && Inv(c, s) && ReaderStep(c, s, s')
    ensures Inv(c, s')
  {
    ResultInv(c, s, s');
    hide Offset, Count, HashAt, ChunkAt, Accepts, ReaderOk, ReaderStep, SlotsOk, WireOk;
    SameRing(c, s, s');
  }

  lemma {:induction false} ResultInv(c: Call, s: State, s': State)
    requires CallValid(c) && ReaderOk(c, s) && ReaderStep(c, s, s')
    ensures ReaderOk(c, s')
    ensures s.completed <= s'.completed
    ensures s' == s.(received := s'.received, completed := s'.completed, readerDone := s'.readerDone, readerRc := s'.readerRc)
  {
    hide Offset, Count, HashAt, Accepts;
  }

  lemma {:induction false} RunInv(c: Call, run: seq<State>, k: nat)
    requires CallValid(c) && IsRun(c, run) && k < |run|
    ensures Inv(c, run[k])
  {
    hide Inv, ProducerStep, SenderStep, ReaderStep, Init;
    if k == 0 {
      InitInv(c, run[0]);
    } else {
      RunInv(c, run, k - 1);
      var s, s' := run[k - 1], run[k];
      assert Next(c, run[k - 1], run[k - 1 + 1]);
      if ProducerStep(c, s, s') {
        ProducerInv(c, s, s');
      } else if SenderStep(c, s, s') {
        SenderInv(c, s, s');
      } else {
        ReaderInv(c, s, s');
      }
    }
  }

  // ---------- What holds in every run ----------

  /** The producer never writes a slot that is queued or being sent. */
  lemma {:induction false} NoOverwrite(c: Call, run: seq<State>, k: nat)
    requires CallValid(c) && IsRun(c, run) && k < |run| && run[k].producer == Writing
    ensures RingOk(c, run[k])
    ensures forall i :: 0 <= i < run[k].queued ==> run[k].tail != Slot(run[k].head, i, c.slotCount)
    ensures run[k].sender in {Sending, Sent} ==> run[k].tail != run[k].head
  {
    hide Offset, Count, HashAt, ChunkAt, Next, Init;
    RunInv(c, run, k);
  }

  /** No more than window chunks are submitted and not yet completed; what is on the wire is chunks 0, 1, 2, ...
      of the call, each once and in order, in failing runs too. */
  lemma {:induction false} FlowAndOrder(c: Call, run: seq<State>, k: nat)
    requires CallValid(c) && IsRun(c, run) && k < |run|
    ensures run[k].submitted <= run[k].completed + c.window
    ensures run[k].wire == Chunks(c, |run[k].wire|) && |run[k].wire| <= run[k].submitted <= Count(c)
  {
    hide Offset, Count, HashAt, ChunkAt, Next, Init;
    RunInv(c, run, k);
  }

  /** Frame i on the wire carries request firstRequest + i for chunkCap tokens, or for what is left of the span.
      The first one resets the session when the call asks for that, no other does; when the call asks for
      acknowledgements, every frame but the last one asks for one. */
  lemma {:induction false} WireFlags(c: Call, run: seq<State>, k: nat, i: nat)
    requires CallValid(c) && IsRun(c, run) && k < |run| && i < |run[k].wire|
    ensures i < Count(c)
    ensures var f := run[k].wire[i];
      && (f.reset <==> c.resetFirst && i == 0) && (f.ackOnly <==> c.ackOnly && i + 1 < Count(c))
      && f.requestId == c.firstRequest + i && f.pos == c.spanStart + i * c.chunkCap
      && |f.tokens| == (if c.total - i * c.chunkCap < c.chunkCap then c.total - i * c.chunkCap else c.chunkCap)
      && f.tokens == c.prompt[f.pos..f.pos + |f.tokens|]
  {
    hide Next, Init, HashAt, Tokens, IsRun;
    FlowAndOrder(c, run, k);
    ChunkFlags(c, i);
  }

  lemma {:induction false} ChunkFlags(c: Call, i: nat)
    requires CallValid(c) && i < Count(c)
    ensures var f := ChunkAt(c, i);
      && (f.reset <==> c.resetFirst && i == 0) && (f.ackOnly <==> c.ackOnly && i + 1 < Count(c))
      && f.requestId == c.firstRequest + i && f.pos == c.spanStart + i * c.chunkCap
      && |f.tokens| == (if c.total - i * c.chunkCap < c.chunkCap then c.total - i * c.chunkCap else c.chunkCap)
      && c.spanStart + i * c.chunkCap + |f.tokens| <= |c.prompt|
      && f.tokens == c.prompt[f.pos..f.pos + |f.tokens|]
  {
    hide Count, HashAt;
    CountExact(c, i);
    CountExact(c, i + 1);
    NextOffset(c, i);
  }

  /** Success: every chunk was sent exactly once in order, together they are the span, each result carries the hash
      of the prompt up to the end of its chunk, and the last result is not an acknowledgement. */
  lemma {:induction false} SuccessMeansDone(c: Call, run: seq<State>, k: nat)
    requires CallValid(c) && IsRun(c, run) && k < |run| && Success(run[k])
    ensures run[k].wire == Chunks(c, Count(c))
    ensures Tokens(run[k].wire) == c.prompt[c.spanStart..c.spanStart + c.total]
    ensures |run[k].received| == Count(c) > 0
    ensures forall i :: 0 <= i < Count(c) ==> run[k].received[i].Result? && run[k].received[i].resultHash == run[k].wire[i].resultHash
    ensures forall i :: 0 <= i < Count(c) ==> run[k].received[i].sizeOk
    ensures run[k].received[Count(c) - 1].kind != Ack
  {
    hide Offset, Count, HashAt, Next, Init;
    RunInv(c, run, k);
    CountExact(c, 0);
    ChunksTile(c, Count(c));
    var n := Count(c);
    assert Accepts(c, n - 1, run[k].received[n - 1]);
  }
}
