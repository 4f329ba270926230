/** WORK frames travelling down a route of workers and RESULT frames travelling back (distributed.c:6319-6625,
    6717-6790): every hop but the last records a pending request, forwards the evaluated span, and later matches
    the result that comes back with the head of its pending queue.  Connections are reliable FIFO queues. */
module Relay {
  import opened Words
  import opened WorkQueues

  type Data = seq<u8>

  datatype Work = Work(id: nat, input: Data)

  /** A RESULT frame; ok means status zero. */
  datatype Result = Result(id: nat, ok: bool, payload: Data, telemetry: seq<Telemetry>)

  /** The record of hop j for a request, and the pending request that carries it.  Times are not modelled. */
  function Record(j: nat, id: nat): Telemetry {
    Telemetry(j, id, 0)
  }

  function PendingOf(j: nat, id: nat): Pending {
    Pending(id, Record(j, id), 0)
  }

  /** A route of k hops.  eval is what the slice on a hop computes for a request; depth
      bounds the pending queue of each hop, zero meaning no bound. */
  datatype Route = Route(k: nat, depth: nat -> nat, eval: (nat, nat, Data) -> Data)

  /** inbox and outbox are the connections to the hop before.  busy is a span whose pending request is recorded and
      whose frame is not sent yet.  evaluated and returned count the spans evaluated and the results sent back. */
  datatype Hop = Hop(
    inbox: seq<Work>, pending: seq<Pending>, busy: Option<Work>, outbox: seq<Result>, evaluated: nat, returned: nat)

  datatype State = State(sent: seq<Work>, hops: seq<Hop>, received: seq<Result>)

  // ---------- Steps ----------

  predicate Init(r: Route, s: State) {
    && s.sent == [] && s.received == [] && |s.hops| == r.k
    && forall j :: 0 <= j < r.k ==> s.hops[j] == Hop([], [], None, [], 0, 0)
  }

  /** The coordinator sends a request to the first hop. */
  predicate Submit(r: Route, s: State, s': State, w: Work)
    requires 0 < |s.hops|
  {
    s' == s.(sent := s.sent + [w], hops := s.hops[0 := s.hops[0].(inbox := s.hops[0].inbox + [w])])
  }

  /** A hop that is not the last evaluates a span and records the pending request, if the window has room. */
  predicate Evaluate(r: Route, s: State, s': State, j: nat) {
    && j + 1 < |s.hops|
    && var h := s.hops[j];
    && h.busy.None? && h.inbox != [] && (r.depth(j) == 0 || |h.pending| < r.depth(j))
    && var w := h.inbox[0];
       s' == s.(hops := s.hops[j := h.(
         inbox := h.inbox[1..],
         pending := h.pending + [PendingOf(j, w.id)],
         busy := Some(Work(w.id, r.eval(j, w.id, w.input))),
         evaluated := h.evaluated + 1)])
  }

  /** ... and then sends it on. */
  predicate Forward(r: Route, s: State, s': State, j: nat) {
    && j + 1 < |s.hops|
    && var h, n := s.hops[j], s.hops[j + 1];
    && h.busy.Some?
    && s' == s.(hops := s.hops[j := h.(busy := None)][j + 1 := n.(inbox := n.inbox + [h.busy.value])])
  }

  /** The last hop answers with its own telemetry record. */
  predicate Answer(r: Route, s: State, s': State, j: nat) {
    && j + 1 == |s.hops|
    && var h := s.hops[j];
    && h.inbox != []
    && var w := h.inbox[0];
       s' == s.(hops := s.hops[j := h.(
         inbox := h.inbox[1..],
         outbox := h.outbox + [Result(w.id, true, r.eval(j, w.id, w.input), [Record(j, w.id)])],
         evaluated := h.evaluated + 1, returned := h.returned + 1)])
  }

  /** The relay thread's test: a result must answer the head of the pending queue. */
  predicate Matches(s: State, j: nat)
    requires j + 1 < |s.hops| && s.hops[j + 1].outbox != []
  {
    s.hops[j].pending != [] && s.hops[j].pending[0].requestId == s.hops[j + 1].outbox[0].id
  }

  /** A hop passes a result on with its own record appended. */
  predicate PassBack(r: Route, s: State, s': State, j: nat) {
    && j + 1 < |s.hops|
    && s.hops[j + 1].outbox != [] && Matches(s, j)
    && var h, n := s.hops[j], s.hops[j + 1];
       var res := n.outbox[0];
       s' == s.(hops := s.hops[j := h.(
                  pending := h.pending[1..],
                  outbox := h.outbox + [res.(telemetry := res.telemetry + [h.pending[0].telemetry])],
                  returned := h.returned + 1)]
                [j + 1 := n.(outbox := n.outbox[1..])])
  }

  predicate Receive(r: Route, s: State, s': State)
    requires 0 < |s.hops|
  {
    var h := s.hops[0];
    && h.outbox != []
    && s' == s.(received := s.received + [h.outbox[0]], hops := s.hops[0 := h.(outbox := h.outbox[1..])])
  }

  ghost predicate Next(r: Route, s: State, s': State)
    requires 0 < |s.hops|
  {
    || (exists w :: Submit(r, s, s', w))
    || (exists j: nat :: Evaluate(r, s, s', j))
    || (exists j: nat :: Forward(r, s, s', j))
    || (exists j: nat :: Answer(r, s, s', j))
    || (exists j: nat :: PassBack(r, s, s', j))
    || Receive(r, s, s')
  }

  // ---------- What a request must turn into ----------

  /** The input of hop j for request w: the slices before it applied in turn. */
  function Input(r: Route, j: nat, w: Work): Data {
    if j == 0 then w.input else r.eval(j - 1, w.id, Input(r, j - 1, w))
  }

  /** Telemetry of the hops k - 1 down to j: last hop first. */
  function Trail(r: Route, j: nat, id: nat): (t: seq<Telemetry>)
    requires j <= r.k
    ensures |t| == r.k - j && forall m :: 0 <= m < |t| ==> t[m] == Record(r.k - 1 - m, id)
  {
    seq(r.k - j, m requires 0 <= m < r.k - j => Record(r.k - 1 - m, id))
  }

  /** The result for request w as it leaves hop j. */
  function Answered(r: Route, j: nat, w: Work): Result
    requires j <= r.k
  {
    Result(w.id, true, Input(r, r.k, w), Trail(r, j, w.id))
  }

  // ---------- The invariant ----------

  function Delivered(s: State, j: nat): int
    requires j < |s.hops|
  {
    if j == 0 then |s.sent| else s.hops[j - 1].evaluated - if s.hops[j - 1].busy.Some? then 1 else 0
  }

  function Consumed(s: State, j: nat): nat
    requires j < |s.hops|
  {
    if j == 0 then |s.received| else s.hops[j - 1].returned
  }

  /** Everything at a hop belongs to consecutive requests: results waiting upstream, then pending, then the inbox. */
  ghost predicate HopOk(r: Route, s: State, j: nat)
    requires |s.hops| == r.k
  {
    && j < r.k
    && var h := s.hops[j];
    && Consumed(s, j) <= h.returned <= h.evaluated <= Delivered(s, j) <= |s.sent|
    && |h.outbox| == h.returned - Consumed(s, j)
    && (forall m :: 0 <= m < |h.outbox| ==> h.outbox[m] == Answered(r, j, s.sent[Consumed(s, j) + m]))
    && |h.inbox| == Delivered(s, j) - h.evaluated
    && (forall m :: 0 <= m < |h.inbox| ==> h.inbox[m] == At(r, j, s.sent[h.evaluated + m]))
    && |h.pending| == h.evaluated - h.returned
    && (j + 1 == r.k ==> h.pending == [] && h.busy.None?)
    && (r.depth(j) == 0 || |h.pending| <= r.depth(j))
    && (forall m :: 0 <= m < |h.pending| ==> h.pending[m] == Recorded(j, s.sent[h.returned + m]))
    && (h.busy.Some? ==> 0 < h.evaluated && h.busy.value == At(r, j + 1, s.sent[h.evaluated - 1]))
  }

  function At(r: Route, j: nat, w: Work): Work {
    Work(w.id, Input(r, j, w))
  }

  function Recorded(j: nat, w: Work): Pending {
    PendingOf(j, w.id)
  }

  ghost predicate Inv(r: Route, s: State) {
    && 0 < r.k == |s.hops|
    && |s.received| <= |s.sent|
    && (forall j :: 0 <= j < r.k ==> HopOk(r, s, j))
    && (forall m :: 0 <= m < |s.received| ==> s.received[m] == Answered(r, 0, s.sent[m]))
  }

  lemma {:induction false} SubmitInv(r: Route, s: State, s': State, w: Work)
    requires Inv(r, s) && Submit(r, s, s', w)
    ensures Inv(r, s')
  {
    assert At(r, 0, w) == w;
    hide Input, Trail;
    forall j | 0 <= j < r.k ensures HopOk(r, s', j) { assert HopOk(r, s, j); }
  }

  lemma {:induction false} EvaluateInv(r: Route, s: State, s': State, j: nat)
    requires Inv(r, s) && Evaluate(r, s, s', j)
    ensures Inv(r, s')
  {
    hide Trail, Input;
    assert HopOk(r, s, j);
    InputNext(r, j, s.sent[s.hops[j].evaluated]);
    forall i | 0 <= i < r.k ensures HopOk(r, s', i) {
      assert HopOk(r, s, i);
      if i != j { HopFrame(r, s, s', i); }
    }
  }

  lemma {:induction false} InputNext(r: Route, j: nat, w: Work)
    ensures Input(r, j + 1, w) == r.eval(j, w.id, Input(r, j, w))
  {
  }

  lemma {:induction false} ForwardInv(r: Route, s: State, s': State, j: nat)
    requires Inv(r, s) && Forward(r, s, s', j)
    ensures Inv(r, s')
  {
    assert HopOk(r, s, j) && HopOk(r, s, j + 1);
    ForwardUpper(r, s, s', j);
    ForwardLower(r, s, s', j);
    hide HopOk, Answered;
    forall i | 0 <= i < r.k ensures HopOk(r, s', i) {
      assert HopOk(r, s, i);
      if i != j && i != j + 1 { HopFrame(r, s, s', i); }
    }
  }

  lemma {:induction false} ForwardUpper(r: Route, s: State, s': State, j: nat)
    requires |s.hops| == r.k && HopOk(r, s, j) && Forward(r, s, s', j)
    ensures HopOk(r, s', j)
  {
    hide Input, Trail, Answered;
  }

  lemma {:induction false} ForwardLower(r: Route, s: State, s': State, j: nat)
    requires |s.hops| == r.k && HopOk(r, s, j) && j + 1 < r.k && HopOk(r, s, j + 1) && Forward(r, s, s', j)
    ensures HopOk(r, s', j + 1)
  {
    hide Input, Trail, Answered;
  }

  lemma {:induction false} AnswerInv(r: Route, s: State, s': State, j: nat)
    requires Inv(r, s) && Answer(r, s, s', j)
    ensures Inv(r, s')
  {
    hide Input;
    assert HopOk(r, s, j);
    var w := s.sent[s.hops[j].evaluated];
    InputNext(r, j, w);
    assert Trail(r, j, w.id) == [Record(j, w.id)];
    hide Trail;
    forall i | 0 <= i < r.k ensures HopOk(r, s', i) { assert HopOk(r, s, i); }
  }

  lemma {:induction false} PassBackUpper(r: Route, s: State, s': State, j: nat)
    requires Inv(r, s) && PassBack(r, s, s', j)
    ensures HopOk(r, s', j)
  {
    hide Input;
    assert HopOk(r, s, j) && HopOk(r, s, j + 1);
    var w := s.sent[s.hops[j].returned];
    assert Trail(r, j, w.id) == Trail(r, j + 1, w.id) + [Record(j, w.id)];
    assert Answered(r, j, w) == s'.hops[j].outbox[|s'.hops[j].outbox| - 1];
    hide Trail, Answered;
  }

  lemma {:induction false} PassBackLower(r: Route, s: State, s': State, j: nat)
    requires Inv(r, s) && PassBack(r, s, s', j)
    ensures HopOk(r, s', j + 1)
  {
    hide Input, Trail, Answered;
    assert HopOk(r, s, j) && HopOk(r, s, j + 1);
  }

  lemma {:induction false} PassBackInv(r: Route, s: State, s': State, j: nat)
    requires Inv(r, s) && PassBack(r, s, s', j)
    ensures Inv(r, s')
  {
    PassBackUpper(r, s, s', j);
    PassBackLower(r, s, s', j);
    hide HopOk, Answered;
    forall i | 0 <= i < r.k ensures HopOk(r, s', i) {
      assert HopOk(r, s, i);
      if i != j && i != j + 1 { HopFrame(r, s, s', i); }
    }
  }

  /** A step that leaves a hop and its two ends alone keeps it in order. */
  lemma {:induction false} HopFrame(r: Route, s: State, s': State, i: nat)
    requires |s.hops| == |s'.hops| == r.k && HopOk(r, s, i)
    requires s'.sent == s.sent && s'.hops[i] == s.hops[i]
    requires Consumed(s', i) == Consumed(s, i) && Delivered(s', i) == Delivered(s, i)
    ensures HopOk(r, s', i)
  {
    hide Input, Trail;
  }

  lemma {:induction false} ReceiveInv(r: Route, s: State, s': State)
    requires Inv(r, s) && Receive(r, s, s')
    ensures Inv(r, s')
  {
    assert HopOk(r, s, 0);
    ReceiveFirst(r, s, s');
    hide HopOk, Answered;
    forall i | 0 <= i < r.k ensures HopOk(r, s', i) {
      assert HopOk(r, s, i);
      if i != 0 { HopFrame(r, s, s', i); }
    }
  }

  lemma {:induction false} ReceiveFirst(r: Route, s: State, s': State)
    requires 0 < r.k == |s.hops| && HopOk(r, s, 0) && Receive(r, s, s')
    ensures HopOk(r, s', 0)
    ensures |s.received| < |s.sent| && s'.received[|s.received|] == Answered(r, 0, s.sent[|s.received|])
  {
    hide Input, Trail, Answered;
    assert s.hops[0].outbox[0] == Answered(r, 0, s.sent[Consumed(s, 0) + 0]);
  }

  ghost predicate IsRun(r: Route, run: seq<State>) {
    && run != [] && 0 < r.k && Init(r, run[0])
    && forall i :: 0 <= i < |run| - 1 ==> 0 < |run[i].hops| && Next(r, run[i], run[i + 1])
  }

  lemma {:induction false} StepInv(r: Route, s: State, s': State)
    requires Inv(r, s) && Next(r, s, s')
    ensures Inv(r, s')
  {
    hide HopOk, Submit, Evaluate, Forward, Answer, PassBack, Receive;
    if w :| Submit(r, s, s', w) {
      SubmitInv(r, s, s', w);
    } else if j: nat :| Evaluate(r, s, s', j) {
      EvaluateInv(r, s, s', j);
    } else if j: nat :| Forward(r, s, s', j) {
      ForwardInv(r, s, s', j);
    } else if j: nat :| Answer(r, s, s', j) {
      AnswerInv(r, s, s', j);
    } else if j: nat :| PassBack(r, s, s', j) {
      PassBackInv(r, s, s', j);
    } else {
      ReceiveInv(r, s, s');
    }
  }

  lemma {:induction false} RunInv(r: Route, run: seq<State>, n: nat)
    requires IsRun(r, run) && n < |run|
    ensures Inv(r, run[n])
  {
    if n == 0 {
      forall j | 0 <= j < r.k ensures HopOk(r, run[0], j) {
        assert run[0].hops[j] == Hop([], [], None, [], 0, 0);
        assert j > 0 ==> run[0].hops[j - 1] == Hop([], [], None, [], 0, 0);
      }
    } else {
      hide HopOk, Next;
      RunInv(r, run, n - 1);
      assert Next(r, run[n - 1], run[n - 1 + 1]);
      StepInv(r, run[n - 1], run[n]);
    }
  }

  // ---------- What holds in every run ----------

  /** Results reach the coordinator in request order, with the payload the last hop computed from the request and
      exactly one telemetry record per hop, last hop first. */
  lemma {:induction false} ResultsInOrder(r: Route, run: seq<State>, n: nat, m: nat)
    requires IsRun(r, run) && n < |run| && m < |run[n].received|
    ensures m < |run[n].sent|
    ensures var w, res := run[n].sent[m], run[n].received[m];
      && res.id == w.id && res.ok && res.payload == Input(r, r.k, w)
      && |res.telemetry| == r.k
      && forall t :: 0 <= t < r.k ==> res.telemetry[t].hop == r.k - 1 - t && res.telemetry[t].request == w.id
  {
    RunInv(r, run, n);
  }

  /** A relay never meets a result without a pending request or with another request's id. */
  lemma {:induction false} RelayAlwaysMatches(r: Route, run: seq<State>, n: nat, j: nat)
    requires IsRun(r, run) && n < |run|
    requires j + 1 < r.k && |run[n].hops| == r.k && run[n].hops[j + 1].outbox != []
    ensures Matches(run[n], j)
  {
    RunInv(r, run, n);
    assert HopOk(r, run[n], j) && HopOk(r, run[n], j + 1);
  }

  /** No pending queue grows beyond its window, and no request is lost: what was sent is received, waiting as a
      result, pending, or still in an inbox. */
  lemma {:induction false} NothingLost(r: Route, run: seq<State>, n: nat, j: nat)
    requires IsRun(r, run) && n < |run| && j < r.k
    ensures |run[n].hops| == r.k && (r.depth(j) == 0 || |run[n].hops[j].pending| <= r.depth(j))
    ensures var s := run[n]; var h := s.hops[j];
      Delivered(s, j) == Consumed(s, j) + |h.outbox| + |h.pending| + |h.inbox|
  {
    RunInv(r, run, n);
    assert HopOk(r, run[n], j);
  }
}
