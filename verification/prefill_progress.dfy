/** Pipelined prefill does not get stuck: every schedule of the three threads ends, with failures too, and without
    failures it ends with success, after the same number of steps. */
module PrefillProgress {
  import opened Words
  import opened TokenHash
  import opened Prefill

  /** No thread has failed, and results have come only for chunks that are on the wire. */
  predicate Healthy(s: State) {
    !s.stop && s.senderRc == 0 && s.readerRc == 0 && |s.received| <= |s.wire|
  }

  /** All three threads have come to their end. */
  predicate Ended(s: State) {
    s.producer in {Finished, Aborted} && s.sender == Exited && s.readerDone
  }

  /** A step that does not depend on the peer's good will: the reader's read returns when an answer is due, or when the
      connection was shut down, as every failure of the other two threads does. */
  ghost predicate Possible(c: Call, s: State, s': State)
    requires CallValid(c)
  {
    || ProducerStep(c, s, s') || SenderStep(c, s, s')
    || (ReaderStep(c, s, s') && (|s.received| < |s.wire| || s.stop || s.senderRc != 0))
  }

  ghost predicate CanGoOn(c: Call, s: State)
    requires CallValid(c)
  {
    exists s' :: Possible(c, s, s')
  }

  ghost predicate Stopped(c: Call, s: State)
    requires CallValid(c)
  {
    forall s' :: !Next(c, s, s')
  }

  function ProducerLeft(s: State, n: nat): int {
    match s.producer
    case AwaitWindow => 3 * (n - s.submitted) + 1
    case AwaitSlot => 3 * (n - s.submitted)
    case Writing => 3 * (n - s.submitted) - 1
    case Finished => 0
    case Aborted => 0
  }

  function SenderLeft(s: State, n: nat): int {
    match s.sender
    case Idle => 3 * (n - Drained(s)) + 1
    case Sending => 3 * (n - Drained(s))
    case Sent => 3 * (n - Drained(s)) - 1
    case Exited => 0
  }

  function ReaderLeft(s: State, n: nat): int {
    if s.readerDone then 0 else n - |s.received|
  }

  /** The steps left: three of the producer, three of the sender and one of the reader for each chunk, and two exits. */
  function StepsLeft(c: Call, s: State): int
    requires CallValid(c)
  {
    ProducerLeft(s, Count(c)) + SenderLeft(s, Count(c)) + ReaderLeft(s, Count(c))
  }

  lemma {:induction false} StartsWithAll(c: Call, s: State)
    requires CallValid(c) && Init(c, s)
    ensures Healthy(s) && StepsLeft(c, s) == 7 * Count(c) + 2
  {
    hide Count, HashAt;
  }

  /** Every step takes one of those left; a failure may save some. */
  lemma {:induction false} StepCounts(c: Call, s: State, s': State)
    requires CallValid(c) && Inv(c, s) && Next(c, s, s')
    ensures StepsLeft(c, s') <= StepsLeft(c, s) - 1
    ensures Healthy(s') ==> StepsLeft(c, s') == StepsLeft(c, s) - 1
  {
    hide Count, HashAt, Inv, ProducerStep, SenderStep, ReaderStep, StepsLeft, Healthy;
    if ProducerStep(c, s, s') {
      ProducerCounts(c, s, s');
    } else if SenderStep(c, s, s') {
      SenderCounts(c, s, s');
    } else {
      ReaderCounts(c, s, s');
    }
  }

  lemma {:induction false} ProducerCounts(c: Call, s: State, s': State)
    requires CallValid(c) && Inv(c, s) && ProducerStep(c, s, s')
    ensures StepsLeft(c, s') <= StepsLeft(c, s) - 1
    ensures Healthy(s') ==> StepsLeft(c, s') == StepsLeft(c, s) - 1
  {
    CountExact(c, s.submitted);
    assert s.submitted < Count(c) <==> s.pos < c.spanStart + c.total;
    hide Count, Offset, HashAt, Built, SlotsOk, WireOk, ReaderOk, RingOk, SenderLeft, ReaderLeft;
  }

  lemma {:induction false} SenderCounts(c: Call, s: State, s': State)
    requires CallValid(c) && Inv(c, s) && SenderStep(c, s, s')
    ensures StepsLeft(c, s') <= StepsLeft(c, s) - 1
    ensures Healthy(s') ==> StepsLeft(c, s') == StepsLeft(c, s) - 1
  {
    hide Count, HashAt, SlotsOk, WireOk, ReaderOk, ProducerLeft, ReaderLeft;
    SameFor(s, s', Count(c));
  }

  lemma {:induction false} SameFor(s: State, s': State, n: nat)
    requires s'.producer == s.producer && s'.submitted == s.submitted
    requires s'.readerDone == s.readerDone && s'.received == s.received
    ensures ProducerLeft(s', n) == ProducerLeft(s, n) && ReaderLeft(s', n) == ReaderLeft(s, n)
  {
  }

  lemma {:induction false} ReaderCounts(c: Call, s: State, s': State)
    requires CallValid(c) && ReaderStep(c, s, s')
    ensures StepsLeft(c, s') <= StepsLeft(c, s) - 1
    ensures Healthy(s') ==> StepsLeft(c, s') == StepsLeft(c, s) - 1
  {
    hide Count, HashAt, Accepts;
    var i := |s.received|;
    var r :| s' == if Accepts(c, i, r)
               then s.(received := s.received + [r], completed := i + 1, readerDone := i + 1 == Count(c))
               else s.(readerRc := 1, readerDone := true);
    OthersWait(s, s', Count(c));
    hide ProducerLeft, SenderLeft;
  }

  lemma {:induction false} OthersWait(s: State, s': State, n: nat)
    requires s'.producer == s.producer && s'.submitted == s.submitted && s'.sender == s.sender && s'.wire == s.wire
    ensures ProducerLeft(s', n) == ProducerLeft(s, n) && SenderLeft(s', n) == SenderLeft(s, n)
  {
  }

  lemma {:induction false} NotNegative(c: Call, s: State)
    requires CallValid(c) && Inv(c, s)
    ensures 0 <= StepsLeft(c, s) && (Ended(s) ==> StepsLeft(c, s) == 0)
  {
    hide Count, HashAt, ChunkAt, Offset, Built, SlotsOk, WireOk, Accepts;
  }

  // ---------- Some thread can always go on ----------

  lemma {:induction false} SenderCanStep(c: Call, s: State)
    requires CallValid(c) && Inv(c, s) && Healthy(s) && s.sender != Exited
    requires s.sender == Idle ==> s.queued != 0 || s.producerDone
    ensures exists s' :: SenderStep(c, s, s') && Healthy(s')
  {
    hide Count, HashAt, ChunkAt, Offset, Built, SlotsOk, WireOk, Accepts, ReaderOk, EndOk;
    match s.sender {
      case Idle =>
        var s' := s.(sender := if s.queued != 0 then Sending else Exited);
        assert SenderStep(c, s, s') && Healthy(s');
      case Sending =>
        var s' := s.(sender := Sent, wire := s.wire + [s.slots[s.head]]);
        assert SenderStep(c, s, s') && Healthy(s');
      case Sent =>
        var s' := s.(sender := Idle, head := (s.head + 1) % c.slotCount, queued := s.queued - 1);
        assert SenderStep(c, s, s') && Healthy(s');
    }
  }

  lemma {:induction false} ReaderCanStep(c: Call, s: State)
    requires CallValid(c) && Healthy(s) && !s.readerDone && |s.received| < |s.wire| && |s.received| < Count(c)
    ensures exists s' :: ReaderStep(c, s, s') && Healthy(s')
  {
    hide Count, HashAt;
    var i := |s.received|;
    var r := Result(HashAt(c, i + 1), Logits, true);
    var s' := s.(received := s.received + [r], completed := i + 1, readerDone := i + 1 == Count(c));
    assert Accepts(c, i, r) && Healthy(s') && ReaderStep(c, s, s');
  }

  lemma {:induction false} ProducerCanStep(c: Call, s: State)
    requires CallValid(c) && Inv(c, s) && Healthy(s)
    requires s.producer != Finished
    requires s.producer == AwaitSlot ==> s.queued != c.slotCount
    requires s.producer == AwaitWindow && s.submitted < Count(c) ==> !s.readerDone && s.submitted < s.completed + c.window
    ensures exists s' :: ProducerStep(c, s, s') && Healthy(s')
  {
    hide HashAt, ChunkAt, Built, SlotsOk, WireOk, Accepts;
    CountExact(c, s.submitted);
    CountExact(c, 0);
    match s.producer {
      case AwaitWindow =>
        var s' := if s.submitted < Count(c) then s.(producer := AwaitSlot) else s.(producer := Finished, producerDone := true);
        assert ProducerStep(c, s, s') && Healthy(s');
      case AwaitSlot =>
        var s' := s.(producer := Writing);
        assert ProducerStep(c, s, s') && Healthy(s');
      case Writing =>
        var b := Built(c, s);
        var s' := s.(producer := AwaitWindow, slots := s.slots[s.tail := b], tail := (s.tail + 1) % c.slotCount,
                     queued := s.queued + 1, submitted := s.submitted + 1, nextHash := b.resultHash,
                     pos := s.pos + |b.tokens|);
        assert ProducerStep(c, s, s') && Healthy(s');
      case Aborted =>
        assert false;
    }
  }

  /** In a healthy state that is not yet the end some thread has a step that keeps it healthy. */
  lemma {:induction false} NeverStuck(c: Call, s: State)
    requires CallValid(c) && Inv(c, s) && Healthy(s) && !Success(s)
    ensures exists s' :: Possible(c, s, s') && Next(c, s, s') && Healthy(s')
  {
    hide Count, HashAt, ChunkAt, Offset, Built, SlotsOk, WireOk, Accepts, ProducerStep, SenderStep, ReaderStep;
    if s.sender != Exited && (s.sender == Idle ==> s.queued != 0 || s.producerDone) {
      SenderCanStep(c, s);
    } else if |s.received| < |s.wire| && !s.readerDone {
      ReaderCanStep(c, s);
    } else {
      ProducerCanStep(c, s);
    }
  }

  /** After a failure the sender exits or finishes a transmission, ... */
  lemma {:induction false} StoppedSender(c: Call, s: State)
    requires CallValid(c) && Inv(c, s) && s.sender != Exited
    requires s.sender == Idle ==> s.stop || s.queued != 0 || s.producerDone
    ensures exists s' :: SenderStep(c, s, s')
  {
    hide Count, HashAt, ChunkAt, Offset, Built, SlotsOk, WireOk, Accepts, ReaderOk, EndOk;
    match s.sender {
      case Idle =>
        assert SenderStep(c, s, s.(sender := if s.queued != 0 && !s.stop then Sending else Exited));
      case Sending =>
        assert SenderStep(c, s, s.(sender := Exited, senderRc := 1, stop := true));
      case Sent =>
        assert SenderStep(c, s, s.(sender := Idle, head := (s.head + 1) % c.slotCount, queued := s.queued - 1));
    }
  }

  /** ... the reader gets an error from the connection that was shut down, ... */
  lemma {:induction false} StoppedReader(c: Call, s: State)
    requires CallValid(c) && ReaderOk(c, s) && !s.readerDone
    ensures exists s' :: ReaderStep(c, s, s')
  {
    hide Count, HashAt;
    assert !Accepts(c, |s.received|, Failed);
    assert ReaderStep(c, s, s.(readerRc := 1, readerDone := true));
  }

  /** ... and the producer gives up. */
  lemma {:induction false} StoppedProducer(c: Call, s: State)
    requires CallValid(c) && Inv(c, s) && s.producer !in {Finished, Aborted}
    requires s.producer == AwaitWindow ==> s.readerDone
    requires s.producer == AwaitSlot ==> s.stop || s.senderRc != 0 || s.queued != c.slotCount
    ensures exists s' :: ProducerStep(c, s, s')
  {
    hide HashAt, ChunkAt, Built, SlotsOk, WireOk, Accepts;
    CountExact(c, s.submitted);
    if s.producer == AwaitWindow && s.submitted == Count(c) {
      assert ProducerStep(c, s, s.(producer := Finished, producerDone := true));
    } else if s.producer == AwaitSlot && !s.stop && s.senderRc == 0 {
      assert ProducerStep(c, s, s.(producer := Writing));
    } else {
      assert ProducerStep(c, s, Cancel(s));
    }
  }

  /** With failures too: as long as a thread has not ended, some thread has a step, and no thread waits for another
      one that waits for it. */
  lemma {:induction false} NoDeadlock(c: Call, s: State)
    requires CallValid(c) && Inv(c, s) && |s.received| <= |s.wire| && !Ended(s)
    ensures CanGoOn(c, s)
  {
    hide Count, HashAt, ChunkAt, Offset, Built, SlotsOk, WireOk, Accepts, ProducerStep, SenderStep, ReaderStep;
    if Healthy(s) {
      NeverStuck(c, s);
    } else if s.sender != Exited && (s.sender == Idle ==> s.stop || s.queued != 0 || s.producerDone) {
      StoppedSender(c, s);
      var s' :| SenderStep(c, s, s');
      assert Possible(c, s, s');
    } else if !s.readerDone && (s.stop || s.senderRc != 0) {
      StoppedReader(c, s);
      var s' :| ReaderStep(c, s, s');
      assert Possible(c, s, s');
    } else if s.producer !in {Finished, Aborted} {
      StoppedProducer(c, s);
      var s' :| ProducerStep(c, s, s');
      assert Possible(c, s, s');
    }
  }

  /** A run ends after at most 7 * Count + 2 steps, wherever threads fail; it can go on exactly until all three threads
      have ended, with a peer that answers what it was sent. */
  lemma {:induction false} EveryRunEnds(c: Call, run: seq<State>)
    requires CallValid(c) && IsRun(c, run)
    ensures |run| - 1 <= 7 * Count(c) + 2
    ensures var s := run[|run| - 1];
      && (Ended(s) ==> Stopped(c, s))
      && (!Ended(s) && |s.received| <= |s.wire| ==> CanGoOn(c, s))
  {
    hide Count, Inv, Next, Init, StepsLeft, Ended, CanGoOn;
    var n := |run| - 1;
    var s := run[n];
    StepsTaken(c, run, n);
    RunInv(c, run, n);
    NotNegative(c, s);
    if Ended(s) {
      forall s' | Next(c, s, s') ensures false {
        StepCounts(c, s, s');
        NextInv(c, run, s');
        NotNegative(c, s');
      }
    } else if |s.received| <= |s.wire| {
      NoDeadlock(c, s);
    }
  }

  /** A run without failures has taken all 7 * Count + 2 steps exactly when it has succeeded, and before that some
      thread can go on without a failure: however the threads are scheduled, the call ends with success. */
  lemma {:induction false} EveryScheduleSucceeds(c: Call, run: seq<State>)
    requires CallValid(c) && IsRun(c, run) && forall i :: 0 <= i < |run| ==> Healthy(run[i])
    ensures Success(run[|run| - 1]) <==> |run| - 1 == 7 * Count(c) + 2
    ensures Success(run[|run| - 1]) || exists s' :: Next(c, run[|run| - 1], s') && Healthy(s')
  {
    hide Count, Inv, Next, Init, StepsLeft, Healthy;
    var n := |run| - 1;
    var s := run[n];
    StepsTaken(c, run, n);
    RunInv(c, run, n);
    NotNegative(c, s);
    if !Success(s) {
      NeverStuck(c, s);
      var s' :| Next(c, s, s') && Healthy(s');
      StepCounts(c, s, s');
      NextInv(c, run, s');
      NotNegative(c, s');
    }
  }

  lemma {:induction false} NextInv(c: Call, run: seq<State>, s': State)
    requires CallValid(c) && IsRun(c, run) && Next(c, run[|run| - 1], s')
    ensures Inv(c, s')
  {
    hide Inv, Next, Init;
    var more := run + [s'];
    forall i | 0 <= i < |more| - 1 ensures Next(c, more[i], more[i + 1]) {}
    RunInv(c, more, |run|);
  }

  lemma {:induction false} StepsTaken(c: Call, run: seq<State>, n: nat)
    requires CallValid(c) && IsRun(c, run) && n < |run|
    ensures n + StepsLeft(c, run[n]) <= 7 * Count(c) + 2
    ensures (forall i :: 0 <= i < |run| ==> Healthy(run[i])) ==> n + StepsLeft(c, run[n]) == 7 * Count(c) + 2
  {
    hide Count, Inv, Next, Init, StepsLeft, Healthy;
    if n == 0 {
      StartsWithAll(c, run[0]);
    } else {
      StepsTaken(c, run, n - 1);
      RunInv(c, run, n - 1);
      assert Next(c, run[n - 1], run[n - 1 + 1]);
      StepCounts(c, run[n - 1], run[n]);
    }
  }
}
