/** The relay does not get stuck: without failures every request is answered, whatever the windows and the schedule,
    after the same number of steps. */
module RelayProgress {
  import opened Words
  import opened WorkQueues
  import opened Relay

  /** A step other than a new request. */
  ghost predicate Internal(r: Route, s: State, s': State)
    requires 0 < |s.hops|
  {
    || (exists j: nat :: Evaluate(r, s, s', j))
    || (exists j: nat :: Forward(r, s, s', j))
    || (exists j: nat :: Answer(r, s, s', j))
    || (exists j: nat :: PassBack(r, s, s', j))
    || Receive(r, s, s')
  }

  ghost predicate CanStep(r: Route, s: State)
    requires 0 < |s.hops|
  {
    exists s' :: Internal(r, s, s')
  }

  // ---------- Some hop can always go on ----------

  lemma {:induction false} CanEvaluate(r: Route, s: State, j: nat)
    requires j + 1 < |s.hops| && s.hops[j].busy.None? && s.hops[j].inbox != []
    requires r.depth(j) == 0 || |s.hops[j].pending| < r.depth(j)
    ensures CanStep(r, s)
  {
    var h := s.hops[j];
    var w := h.inbox[0];
    var s' := s.(hops := s.hops[j := h.(
      inbox := h.inbox[1..], pending := h.pending + [PendingOf(j, w.id)],
      busy := Some(Work(w.id, r.eval(j, w.id, w.input))), evaluated := h.evaluated + 1)]);
    assert Evaluate(r, s, s', j);
    assert Internal(r, s, s');
  }

  lemma {:induction false} CanForward(r: Route, s: State, j: nat)
    requires j + 1 < |s.hops| && s.hops[j].busy.Some?
    ensures CanStep(r, s)
  {
    var h, n := s.hops[j], s.hops[j + 1];
    var s' := s.(hops := s.hops[j := h.(busy := None)][j + 1 := n.(inbox := n.inbox + [h.busy.value])]);
    assert Forward(r, s, s', j);
    assert Internal(r, s, s');
  }

  lemma {:induction false} CanAnswer(r: Route, s: State, j: nat)
    requires j + 1 == |s.hops| && s.hops[j].inbox != []
    ensures CanStep(r, s)
  {
    var h := s.hops[j];
    var w := h.inbox[0];
    var s' := s.(hops := s.hops[j := h.(
      inbox := h.inbox[1..],
      outbox := h.outbox + [Result(w.id, true, r.eval(j, w.id, w.input), [Record(j, w.id)])],
      evaluated := h.evaluated + 1, returned := h.returned + 1)]);
    assert Answer(r, s, s', j);
    assert Internal(r, s, s');
  }

  lemma {:induction false} CanPassBack(r: Route, s: State, j: nat)
    requires j + 1 < |s.hops| && s.hops[j + 1].outbox != [] && Matches(s, j)
    ensures CanStep(r, s)
  {
    var h, n := s.hops[j], s.hops[j + 1];
    var res := n.outbox[0];
    var s' := s.(hops := s.hops[j := h.(
                   pending := h.pending[1..],
                   outbox := h.outbox + [res.(telemetry := res.telemetry + [h.pending[0].telemetry])],
                   returned := h.returned + 1)]
                 [j + 1 := n.(outbox := n.outbox[1..])]);
    assert PassBack(r, s, s', j);
    assert Internal(r, s, s');
  }

  lemma {:induction false} CanReceive(r: Route, s: State)
    requires 0 < |s.hops| && s.hops[0].outbox != []
    ensures CanStep(r, s)
  {
    var h := s.hops[0];
    var s' := s.(received := s.received + [h.outbox[0]], hops := s.hops[0 := h.(outbox := h.outbox[1..])]);
    assert Receive(r, s, s');
    assert Internal(r, s, s');
  }

  /** When nothing can go on, no result waits at a hop. */
  lemma {:induction false} NoResults(r: Route, s: State, j: nat)
    requires Inv(r, s) && j < r.k && !CanStep(r, s)
    ensures s.hops[j].outbox == []
  {
    hide CanStep, Input, Trail;
    assert HopOk(r, s, j);
    if s.hops[j].outbox != [] {
      if j == 0 {
        CanReceive(r, s);
      } else {
        assert HopOk(r, s, j - 1);
        assert s.hops[j].outbox[0] == Answered(r, j, s.sent[Consumed(s, j) + 0]);
        assert s.hops[j - 1].pending[0] == Recorded(j - 1, s.sent[s.hops[j - 1].returned + 0]);
        CanPassBack(r, s, j - 1);
      }
    }
  }

  /** When nothing can go on, every hop has returned all that was sent to it: from the last hop to the first, the window
      of each has room, so that its inbox is empty. */
  lemma {:induction false} AllReturned(r: Route, s: State, j: nat)
    requires Inv(r, s) && j < r.k && !CanStep(r, s)
    ensures Consumed(s, j) == s.hops[j].returned == Delivered(s, j)
    decreases r.k - j
  {
    hide CanStep, Input, Trail, Answered;
    NoResults(r, s, j);
    assert HopOk(r, s, j);
    if j + 1 == r.k {
      if s.hops[j].inbox != [] { CanAnswer(r, s, j); }
    } else {
      AllReturned(r, s, j + 1);
      if s.hops[j].busy.Some? { CanForward(r, s, j); }
      assert s.hops[j].pending == [];
      if s.hops[j].inbox != [] { CanEvaluate(r, s, j); }
    }
  }

  /** As long as a request has no answer, some step other than a new request is possible. */
  lemma {:induction false} NeverStuck(r: Route, s: State)
    requires Inv(r, s) && |s.received| < |s.sent|
    ensures CanStep(r, s)
  {
    hide CanStep, HopOk;
    if !CanStep(r, s) {
      AllReturned(r, s, 0);
    }
  }

  // ---------- Counting the steps ----------

  /** What is left to do at a hop: evaluate, forward and pass back for each request, or answer it. */
  function HopLeft(r: Route, s: State, i: nat): int
    requires i < |s.hops|
  {
    var h := s.hops[i];
    if i + 1 == r.k then |s.sent| - h.evaluated
    else 3 * |s.sent| - (2 * h.evaluated - (if h.busy.Some? then 1 else 0)) - h.returned
  }

  function HopsLeft(r: Route, s: State, n: nat): int
    requires n <= |s.hops|
  {
    if n == 0 then 0 else HopsLeft(r, s, n - 1) + HopLeft(r, s, n - 1)
  }

  function StepsLeft(r: Route, s: State): int {
    HopsLeft(r, s, |s.hops|) + (|s.sent| - |s.received|)
  }

  lemma {:induction false} OneHopLess(r: Route, s: State, s': State, j: nat, d: int, n: nat)
    requires |s.hops| == |s'.hops| && n <= |s.hops|
    requires forall i :: 0 <= i < n ==> HopLeft(r, s', i) == HopLeft(r, s, i) - if i == j then d else 0
    ensures HopsLeft(r, s', n) == HopsLeft(r, s, n) - if j < n then d else 0
  {
    hide HopLeft;
    if n > 0 {
      OneHopLess(r, s, s', j, d, n - 1);
    }
  }

  lemma {:induction false} EvaluateCounts(r: Route, s: State, s': State, j: nat)
    requires 0 < r.k == |s.hops| && Evaluate(r, s, s', j)
    ensures StepsLeft(r, s') == StepsLeft(r, s) - 1
  {
    hide HopsLeft;
    OneHopLess(r, s, s', j, 1, r.k);
  }

  lemma {:induction false} ForwardCounts(r: Route, s: State, s': State, j: nat)
    requires 0 < r.k == |s.hops| && Forward(r, s, s', j)
    ensures StepsLeft(r, s') == StepsLeft(r, s) - 1
  {
    hide HopsLeft;
    OneHopLess(r, s, s', j, 1, r.k);
  }

  lemma {:induction false} AnswerCounts(r: Route, s: State, s': State, j: nat)
    requires 0 < r.k == |s.hops| && Answer(r, s, s', j)
    ensures StepsLeft(r, s') == StepsLeft(r, s) - 1
  {
    hide HopsLeft;
    OneHopLess(r, s, s', j, 1, r.k);
  }

  lemma {:induction false} PassBackCounts(r: Route, s: State, s': State, j: nat)
    requires 0 < r.k == |s.hops| && PassBack(r, s, s', j)
    ensures StepsLeft(r, s') == StepsLeft(r, s) - 1
  {
    hide HopsLeft;
    OneHopLess(r, s, s', j, 1, r.k);
  }

  /** Every step other than a new request is one of those left. */
  lemma {:induction false} InternalCounts(r: Route, s: State, s': State)
    requires 0 < r.k == |s.hops| && Internal(r, s, s')
    ensures StepsLeft(r, s') == StepsLeft(r, s) - 1
  {
    hide HopsLeft, Evaluate, Forward, Answer, PassBack;
    if j: nat :| Evaluate(r, s, s', j) {
      EvaluateCounts(r, s, s', j);
    } else if j: nat :| Forward(r, s, s', j) {
      ForwardCounts(r, s, s', j);
    } else if j: nat :| Answer(r, s, s', j) {
      AnswerCounts(r, s, s', j);
    } else if j: nat :| PassBack(r, s, s', j) {
      PassBackCounts(r, s, s', j);
    } else {
      OneHopLess(r, s, s', 0, 0, r.k);
    }
  }

  lemma {:induction false} SubmitAdds(r: Route, s: State, s': State, n: nat)
    requires |s'.hops| == |s.hops| == r.k && |s'.sent| == |s.sent| + 1 && n <= r.k
    requires forall i :: 0 <= i < r.k ==>
      s'.hops[i].evaluated == s.hops[i].evaluated && s'.hops[i].busy == s.hops[i].busy && s'.hops[i].returned == s.hops[i].returned
    ensures HopsLeft(r, s', n) == HopsLeft(r, s, n) + if n == r.k && 0 < n then 3 * n - 2 else 3 * n
  {
    if n > 0 {
      SubmitAdds(r, s, s', n - 1);
    }
  }

  lemma {:induction false} SubmitCounts(r: Route, s: State, s': State, w: Work)
    requires 0 < r.k == |s.hops| && Submit(r, s, s', w)
    ensures StepsLeft(r, s') == StepsLeft(r, s) + 3 * r.k - 1
  {
    hide HopsLeft;
    SubmitAdds(r, s, s', r.k);
  }

  lemma {:induction false} NotNegative(r: Route, s: State, n: nat)
    requires Inv(r, s) && n <= r.k
    ensures 0 <= HopsLeft(r, s, n)
  {
    hide Input, Trail, Answered;
    if n > 0 {
      NotNegative(r, s, n - 1);
      assert HopOk(r, s, n - 1);
    }
  }

  /** When every request has its answer, every hop has done its part. */
  lemma {:induction false} AllDone(r: Route, s: State, n: nat)
    requires Inv(r, s) && |s.received| == |s.sent| && n <= r.k
    ensures HopsLeft(r, s, n) == 0 && (n < r.k ==> Consumed(s, n) == |s.sent|)
  {
    hide Input, Trail, Answered;
    if n > 0 {
      AllDone(r, s, n - 1);
      assert HopOk(r, s, n - 1);
      if n < r.k { assert HopOk(r, s, n); }
    }
  }

  lemma {:induction false} StepsTaken(r: Route, run: seq<State>, n: nat)
    requires IsRun(r, run) && n < |run|
    ensures n + StepsLeft(r, run[n]) == 3 * r.k * |run[n].sent|
  {
    hide HopOk, HopLeft, HopsLeft, Evaluate, Forward, Answer, PassBack, Answered;
    if n == 0 {
      NothingToDo(r, run[0], r.k);
    } else {
      StepsTaken(r, run, n - 1);
      RunInv(r, run, n - 1);
      var s, s' := run[n - 1], run[n];
      assert Next(r, run[n - 1], run[n - 1 + 1]);
      if w :| Submit(r, s, s', w) {
        SubmitCounts(r, s, s', w);
        assert 3 * r.k * |s'.sent| == 3 * r.k * |s.sent| + 3 * r.k;
      } else {
        InternalCounts(r, s, s');
        SameSent(r, s, s');
      }
    }
  }

  lemma {:induction false} SameSent(r: Route, s: State, s': State)
    requires 0 < |s.hops| && Internal(r, s, s')
    ensures s'.sent == s.sent
  {
  }

  lemma {:induction false} NothingToDo(r: Route, s: State, n: nat)
    requires Init(r, s) && n <= r.k
    ensures HopsLeft(r, s, n) == 0
  {
    if n > 0 {
      NothingToDo(r, s, n - 1);
    }
  }

  /** Without failures a run takes at most 3 * k steps for each request on a route of k hops: sending it, evaluating,
      forwarding and passing it back at each hop but the last, answering it, and receiving the result.  It has taken
      them all exactly when every request has its answer; until then some hop can go on, whatever the windows. */
  lemma {:induction false} EveryRequestIsAnswered(r: Route, run: seq<State>)
    requires IsRun(r, run)
    ensures var s := run[|run| - 1];
      && |s.received| <= |s.sent| && |run| - 1 <= 3 * r.k * |s.sent|
      && (|s.received| == |s.sent| <==> |run| - 1 == 3 * r.k * |s.sent|)
      && |s.hops| == r.k && (|s.received| < |s.sent| ==> CanStep(r, s))
  {
    hide HopOk, CanStep, HopsLeft, Next;
    var s := run[|run| - 1];
    RunInv(r, run, |run| - 1);
    StepsTaken(r, run, |run| - 1);
    NotNegative(r, s, r.k);
    if |s.received| == |s.sent| {
      AllDone(r, s, r.k);
    } else {
      NeverStuck(r, s);
    }
  }
}
