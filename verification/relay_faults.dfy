/** The relay of module Relay when evaluations, sends and connections fail.  A failing hop answers upstream at once, so
    errors overtake results; the match of a result with the head of the pending queue is what keeps answers right.  A hop
    whose connection is closed is a hop that takes no more steps. */
module RelayFaults {
  import opened Words
  import opened WorkQueues
  import opened Relay

  function Error(id: nat): Result {
    Result(id, false, [], [])
  }

  // ---------- Failing steps ----------

  /** A span is refused or its evaluation fails. */
  predicate EvaluationFails(s: State, s': State, j: nat) {
    && j < |s.hops|
    && var h := s.hops[j];
    && h.inbox != []
    && s' == s.(hops := s.hops[j := h.(inbox := h.inbox[1..], outbox := h.outbox + [Error(h.inbox[0].id)])])
  }

  /** The frame cannot be sent on: its pending request is taken out again. */
  predicate SendFails(s: State, s': State, j: nat, i: nat) {
    && j < |s.hops|
    && var h := s.hops[j];
    && h.busy.Some? && i < |h.pending| && h.pending[i].requestId == h.busy.value.id
    && s' == s.(hops := s.hops[j := h.(
         busy := None, pending := WithoutAt(h.pending, i), outbox := h.outbox + [Error(h.busy.value.id)])])
  }

  /** The frame cannot be sent on, and the relay thread has taken its pending request already. */
  predicate SendFailsLate(s: State, s': State, j: nat) {
    && j < |s.hops|
    && var h := s.hops[j];
    && h.busy.Some?
    && s' == s.(hops := s.hops[j := h.(busy := None, outbox := h.outbox + [Error(h.busy.value.id)])])
  }

  /** The relay thread gives up: on a closed connection or a bad frame, or on a result that does not match, which it
      takes off the connection.  It answers the head of its pending queue with an error, or takes it off without an answer
      when the failure is its own write upstream. */
  predicate RelayFails(s: State, s': State, j: nat, taken: bool, answers: bool) {
    && j + 1 < |s.hops|
    && var h, n := s.hops[j], s.hops[j + 1];
    && (taken ==> n.outbox != [])
    && s' == s.(hops := s.hops[j := if h.pending == [] then h else h.(
                  pending := h.pending[1..],
                  outbox := if answers then h.outbox + [Error(h.pending[0].requestId)] else h.outbox)]
                [j + 1 := if taken then n.(outbox := n.outbox[1..]) else n])
  }

  /** Request ids increase, as the coordinator assigns them. */
  ghost predicate NextRequest(r: Route, s: State, s': State, w: Work)
    requires 0 < |s.hops|
  {
    Submit(r, s, s', w) && forall m :: 0 <= m < |s.sent| ==> s.sent[m].id < w.id
  }

  ghost predicate Next(r: Route, s: State, s': State)
    requires 0 < |s.hops|
  {
    || (exists w :: NextRequest(r, s, s', w))
    || (exists j: nat :: Evaluate(r, s, s', j))
    || (exists j: nat :: Forward(r, s, s', j))
    || (exists j: nat :: Answer(r, s, s', j))
    || (exists j: nat :: PassBack(r, s, s', j))
    || Receive(r, s, s')
    || (exists j: nat :: EvaluationFails(s, s', j))
    || (exists j: nat, i: nat :: SendFails(s, s', j, i))
    || (exists j: nat :: SendFailsLate(s, s', j))
    || (exists j: nat, taken, answers :: RelayFails(s, s', j, taken, answers))
  }

  ghost predicate IsRun(r: Route, run: seq<State>) {
    && run != [] && 0 < r.k && Init(r, run[0])
    && forall i :: 0 <= i < |run| - 1 ==> 0 < |run[i].hops| && Next(r, run[i], run[i + 1])
  }

  // ---------- What is on a hop ----------

  ghost predicate FromRequest(r: Route, sent: seq<Work>, j: nat, w: Work) {
    exists i :: 0 <= i < |sent| && w == At(r, j, sent[i])
  }

  ghost predicate Answers(r: Route, sent: seq<Work>, j: nat, x: Result)
    requires j <= r.k
  {
    exists i :: 0 <= i < |sent| && x == Answered(r, j, sent[i])
  }

  /** Spans on a hop are inputs of requests, successful results on it answer requests, and a pending request carries the
      hop's own record. */
  ghost predicate Content(r: Route, sent: seq<Work>, j: nat, h: Hop)
    requires j < r.k
  {
    && (forall m :: 0 <= m < |h.inbox| ==> FromRequest(r, sent, j, h.inbox[m]))
    && (h.busy.Some? ==> j + 1 < r.k && FromRequest(r, sent, j + 1, h.busy.value))
    && GoodAnswers(r, sent, j, h.outbox)
    && (forall m :: 0 <= m < |h.pending| ==> h.pending[m] == PendingOf(j, h.pending[m].requestId))
    && (j + 1 == r.k ==> h.pending == [])
  }

  ghost predicate GoodAnswers(r: Route, sent: seq<Work>, j: nat, xs: seq<Result>)
    requires j <= r.k
  {
    forall m :: 0 <= m < |xs| && xs[m].ok ==> Answers(r, sent, j, xs[m])
  }

  // ---------- The order at the first hop ----------

  function GoodIds(xs: seq<Result>): seq<nat> {
    if xs == [] then []
    else GoodIds(xs[..|xs| - 1]) + if xs[|xs| - 1].ok then [xs[|xs| - 1].id] else []
  }

  function PendingIds(ps: seq<Pending>): (ids: seq<nat>)
    ensures |ids| == |ps| && forall m :: 0 <= m < |ps| ==> ids[m] == ps[m].requestId
  {
    seq(|ps|, m requires 0 <= m < |ps| => ps[m].requestId)
  }

  function WorkIds(ws: seq<Work>): (ids: seq<nat>)
    ensures |ids| == |ws| && forall m :: 0 <= m < |ws| ==> ids[m] == ws[m].id
  {
    seq(|ws|, m requires 0 <= m < |ws| => ws[m].id)
  }

  /** The ids at the first hop: successful results, then pending requests, then the inbox. */
  function FrontIds(received: seq<Result>, h: Hop): seq<nat> {
    GoodIds(received + h.outbox) + PendingIds(h.pending) + WorkIds(h.inbox)
  }

  ghost predicate Increasing(ids: seq<nat>) {
    forall m, n :: 0 <= m < n < |ids| ==> ids[m] < ids[n]
  }

  ghost predicate Ordered(s: State)
    requires 0 < |s.hops|
  {
    var ids, sent := FrontIds(s.received, s.hops[0]), WorkIds(s.sent);
    && Increasing(ids) && Increasing(sent)
    && (ids != [] ==> sent != [] && ids[|ids| - 1] <= sent[|sent| - 1])
  }

  ghost predicate Contents(r: Route, s: State) {
    && |s.hops| == r.k
    && (forall j :: 0 <= j < r.k ==> Content(r, s.sent, j, s.hops[j]))
    && GoodAnswers(r, s.sent, 0, s.received)
  }

  ghost predicate Inv(r: Route, s: State) {
    0 < r.k && Contents(r, s) && Ordered(s)
  }

  lemma {:induction false} GoodAppend(xs: seq<Result>, x: Result)
    ensures GoodIds(xs + [x]) == GoodIds(xs) + if x.ok then [x.id] else []
  {
    assert (xs + [x])[..|xs|] == xs;
  }

  lemma {:induction false} GoodPrefix(xs: seq<Result>, ys: seq<Result>)
    ensures GoodIds(xs) <= GoodIds(xs + ys)
  {
    if ys == [] {
      assert xs + ys == xs;
    } else {
      var n := |ys| - 1;
      GoodPrefix(xs, ys[..n]);
      GoodAppend(xs + ys[..n], ys[n]);
      assert xs + ys[..n] + [ys[n]] == xs + ys;
    }
  }

  lemma {:induction false} PendingTail(ps: seq<Pending>)
    requires ps != []
    ensures PendingIds(ps) == [ps[0].requestId] + PendingIds(ps[1..])
  {
  }

  lemma {:induction false} PendingAppend(ps: seq<Pending>, p: Pending)
    ensures PendingIds(ps + [p]) == PendingIds(ps) + [p.requestId]
  {
  }

  lemma {:induction false} WorkTail(ws: seq<Work>)
    requires ws != []
    ensures WorkIds(ws) == [ws[0].id] + WorkIds(ws[1..])
  {
  }

  lemma {:induction false} WorkAppend(ws: seq<Work>, w: Work)
    ensures WorkIds(ws + [w]) == WorkIds(ws) + [w.id]
  {
  }

  /** An id between two of the three parts may belong to either, and may be taken out. */
  lemma {:induction false} Boundary(a: seq<nat>, id: nat, b: seq<nat>, c: seq<nat>)
    ensures a + ([id] + b) + c == (a + [id]) + b + c
    ensures a + b + c == WithoutAt(a + ([id] + b) + c, |a|)
    ensures (a + b) + ([id] + c) == a + (b + [id]) + c
    ensures a + b + c == WithoutAt(a + b + ([id] + c), |a| + |b|)
  {
  }

  lemma {:induction false} TakeFromMiddle(a: seq<nat>, b: seq<nat>, c: seq<nat>, i: nat)
    requires i < |b|
    ensures a + WithoutAt(b, i) + c == WithoutAt(a + b + c, |a| + i)
  {
  }

  /** Taking an id out keeps the order and does not raise the last one. */
  lemma {:induction false} TakeOut(ids: seq<nat>, i: nat)
    requires Increasing(ids) && i < |ids|
    ensures Increasing(WithoutAt(ids, i))
    ensures var rest := WithoutAt(ids, i); rest != [] ==> rest[|rest| - 1] <= ids[|ids| - 1]
  {
    var rest := WithoutAt(ids, i);
    assert forall m :: 0 <= m < |rest| ==> rest[m] == if m < i then ids[m] else ids[m + 1];
  }

  /** A step that leaves the ids at the first hop as they are, or takes one out. */
  lemma {:induction false} OrderedStep(s: State, s': State, i: nat)
    requires 0 < |s.hops| && 0 < |s'.hops| && Ordered(s) && s'.sent == s.sent
    requires var ids, ids' := FrontIds(s.received, s.hops[0]), FrontIds(s'.received, s'.hops[0]);
      ids' == ids || (i < |ids| && ids' == WithoutAt(ids, i))
    ensures Ordered(s')
  {
    hide FrontIds, Increasing, WithoutAt;
    var ids := FrontIds(s.received, s.hops[0]);
    if i < |ids| { TakeOut(ids, i); }
  }

  // ---------- Contents ----------

  lemma {:induction false} ContentsStep(r: Route, s: State, s': State, j: nat, l: nat)
    requires Contents(r, s) && |s'.hops| == r.k && j < r.k && l < r.k && s'.sent == s.sent && s'.received == s.received
    requires forall i :: 0 <= i < r.k && i != j && i != l ==> s'.hops[i] == s.hops[i]
    requires Content(r, s.sent, j, s'.hops[j]) && Content(r, s.sent, l, s'.hops[l])
    ensures Contents(r, s')
  {
    hide Content, GoodAnswers;
    forall i | 0 <= i < r.k ensures Content(r, s'.sent, i, s'.hops[i]) {
      if i != j && i != l { assert Content(r, s.sent, i, s.hops[i]); }
    }
  }

  lemma {:induction false} GoodAnswersMore(r: Route, sent: seq<Work>, j: nat, xs: seq<Result>, x: Result)
    requires j <= r.k && GoodAnswers(r, sent, j, xs) && (x.ok ==> Answers(r, sent, j, x))
    ensures GoodAnswers(r, sent, j, xs + [x])
  {
    hide Answers;
  }

  lemma {:induction false} GoodAnswersRest(r: Route, sent: seq<Work>, j: nat, xs: seq<Result>)
    requires j <= r.k && GoodAnswers(r, sent, j, xs) && xs != []
    ensures GoodAnswers(r, sent, j, xs[1..]) && (xs[0].ok ==> Answers(r, sent, j, xs[0]))
  {
    hide Answers;
    var rest := xs[1..];
    assert forall m :: 0 <= m < |rest| ==> rest[m] == xs[m + 1];
  }

  /** What was true of the requests so far stays true when another is sent. */
  lemma {:induction false} MoreSent(r: Route, sent: seq<Work>, w: Work, j: nat)
    ensures forall v :: FromRequest(r, sent, j, v) ==> FromRequest(r, sent + [w], j, v)
    ensures j <= r.k ==> forall x :: Answers(r, sent, j, x) ==> Answers(r, sent + [w], j, x)
    ensures j < r.k ==> forall xs :: GoodAnswers(r, sent, j, xs) ==> GoodAnswers(r, sent + [w], j, xs)
  {
    hide At, Answered;
    var more := sent + [w];
    assert forall i :: 0 <= i < |sent| ==> more[i] == sent[i];
  }

  lemma {:induction false} SubmitKeeps(r: Route, s: State, s': State, w: Work)
    requires Inv(r, s) && NextRequest(r, s, s', w)
    ensures Inv(r, s')
  {
    hide Contents, Ordered, Submit;
    ContentsHops(r, s);
    SubmitContents(r, s, s', w);
    SubmitOrdered(r, s, s', w);
  }

  lemma {:induction false} ContentsHops(r: Route, s: State)
    requires Contents(r, s)
    ensures |s.hops| == r.k
  {
  }

  lemma {:induction false} SubmitOrdered(r: Route, s: State, s': State, w: Work)
    requires 0 < |s.hops| && Ordered(s) && NextRequest(r, s, s', w)
    ensures 0 < |s'.hops| && Ordered(s')
  {
    hide GoodIds, PendingIds, WorkIds, Increasing;
    var h := s.hops[0];
    var ids, sent := FrontIds(s.received, h), WorkIds(s.sent);
    WorkAppend(h.inbox, w);
    WorkAppend(s.sent, w);
    Associate(GoodIds(s.received + h.outbox) + PendingIds(h.pending), WorkIds(h.inbox), [w.id]);
    assert FrontIds(s'.received, s'.hops[0]) == ids + [w.id];
    assert sent != [] ==> s.sent[|s.sent| - 1].id < w.id;
    hide FrontIds;
    AppendIncreasing(ids, w.id);
    AppendIncreasing(sent, w.id);
  }

  lemma {:induction false} AppendIncreasing(ids: seq<nat>, id: nat)
    requires Increasing(ids) && (ids != [] ==> ids[|ids| - 1] < id)
    ensures Increasing(ids + [id]) && (ids + [id])[|ids|] == id
  {
  }

  lemma {:induction false} SubmitContents(r: Route, s: State, s': State, w: Work)
    requires 0 < r.k && Contents(r, s) && 0 < |s.hops| && Submit(r, s, s', w)
    ensures Contents(r, s')
  {
    hide FromRequest, Answers, GoodAnswers;
    forall j | 0 <= j < r.k ensures Content(r, s'.sent, j, s'.hops[j]) {
      assert Content(r, s.sent, j, s.hops[j]);
      MoreSent(r, s.sent, w, j);
      MoreSent(r, s.sent, w, j + 1);
      NewRequest(r, s.sent, w);
    }
    MoreSent(r, s.sent, w, 0);
  }

  lemma {:induction false} NewRequest(r: Route, sent: seq<Work>, w: Work)
    ensures FromRequest(r, sent + [w], 0, w)
  {
    assert (sent + [w])[|sent|] == w && At(r, 0, w) == w;
  }

  // ---------- The steps ----------

  lemma {:induction false} EvaluateKeeps(r: Route, s: State, s': State, j: nat)
    requires Inv(r, s) && Evaluate(r, s, s', j)
    ensures Inv(r, s')
  {
    hide GoodIds, GoodAnswers, Ordered, FromRequest, PendingIds, WorkIds;
    var h, w := s.hops[j], s.hops[j].inbox[0];
    assert Content(r, s.sent, j, h);
    NextInput(r, s.sent, j, w);
    assert Content(r, s.sent, j, s'.hops[j]);
    ContentsStep(r, s, s', j, j);
    if j == 0 {
      PendingAppend(h.pending, PendingOf(0, w.id));
      WorkTail(h.inbox);
      Boundary(GoodIds(s.received + h.outbox), w.id, PendingIds(h.pending), WorkIds(h.inbox[1..]));
    }
    OrderedStep(s, s', 0);
  }

  lemma {:induction false} NextInput(r: Route, sent: seq<Work>, j: nat, w: Work)
    requires FromRequest(r, sent, j, w)
    ensures FromRequest(r, sent, j + 1, Work(w.id, r.eval(j, w.id, w.input)))
  {
    var i :| 0 <= i < |sent| && w == At(r, j, sent[i]);
    InputNext(r, j, sent[i]);
    assert Work(w.id, r.eval(j, w.id, w.input)) == At(r, j + 1, sent[i]);
  }

  lemma {:induction false} ForwardKeeps(r: Route, s: State, s': State, j: nat)
    requires Inv(r, s) && Forward(r, s, s', j)
    ensures Inv(r, s')
  {
    hide GoodIds, GoodAnswers, Ordered, FromRequest;
    assert Content(r, s.sent, j, s.hops[j]) && Content(r, s.sent, j + 1, s.hops[j + 1]);
    assert Content(r, s.sent, j, s'.hops[j]) && Content(r, s.sent, j + 1, s'.hops[j + 1]);
    ContentsStep(r, s, s', j, j + 1);
    OrderedStep(s, s', 0);
  }

  lemma {:induction false} AnswerKeeps(r: Route, s: State, s': State, j: nat)
    requires Inv(r, s) && Answer(r, s, s', j)
    ensures Inv(r, s')
  {
    hide GoodIds, GoodAnswers, Ordered, FromRequest, Answers, PendingIds, WorkIds;
    var h, w := s.hops[j], s.hops[j].inbox[0];
    assert Content(r, s.sent, j, h);
    var x := Result(w.id, true, r.eval(j, w.id, w.input), [Record(j, w.id)]);
    LastAnswer(r, s.sent, j, w);
    GoodAnswersMore(r, s.sent, j, h.outbox, x);
    assert Content(r, s.sent, j, s'.hops[j]);
    ContentsStep(r, s, s', j, j);
    if j == 0 {
      GoodAppend(s.received + h.outbox, x);
      Associate(s.received, h.outbox, [x]);
      WorkTail(h.inbox);
      NoPending(h.pending);
      Boundary(GoodIds(s.received + h.outbox), w.id, [], WorkIds(h.inbox[1..]));
    }
    OrderedStep(s, s', 0);
  }

  lemma {:induction false} NoPending(ps: seq<Pending>)
    requires ps == []
    ensures PendingIds(ps) == []
  {
  }

  lemma {:induction false} LastAnswer(r: Route, sent: seq<Work>, j: nat, w: Work)
    requires j + 1 == r.k && FromRequest(r, sent, j, w)
    ensures Answers(r, sent, j, Result(w.id, true, r.eval(j, w.id, w.input), [Record(j, w.id)]))
  {
    var i :| 0 <= i < |sent| && w == At(r, j, sent[i]);
    InputNext(r, j, sent[i]);
    assert Trail(r, j, w.id) == [Record(j, w.id)];
    assert Result(w.id, true, r.eval(j, w.id, w.input), [Record(j, w.id)]) == Answered(r, j, sent[i]);
  }

  lemma {:induction false} PassBackKeeps(r: Route, s: State, s': State, j: nat)
    requires Inv(r, s) && PassBack(r, s, s', j)
    ensures Inv(r, s')
  {
    hide GoodIds, GoodAnswers, Ordered, FromRequest, Answers, FrontIds;
    var h, n := s.hops[j], s.hops[j + 1];
    var res := n.outbox[0];
    var x := res.(telemetry := res.telemetry + [h.pending[0].telemetry]);
    assert Content(r, s.sent, j, h) && Content(r, s.sent, j + 1, n);
    GoodAnswersRest(r, s.sent, j + 1, n.outbox);
    if res.ok { OneMoreHop(r, s.sent, j, res); }
    GoodAnswersMore(r, s.sent, j, h.outbox, x);
    assert Content(r, s.sent, j, s'.hops[j]) && Content(r, s.sent, j + 1, s'.hops[j + 1]);
    ContentsStep(r, s, s', j, j + 1);
    if j == 0 { AnswerPending(s.received, h, x); }
    OrderedStep(s, s', |GoodIds(s.received + s.hops[0].outbox)|);
  }

  lemma {:induction false} OneMoreHop(r: Route, sent: seq<Work>, j: nat, x: Result)
    requires j < r.k && Answers(r, sent, j + 1, x)
    ensures Answers(r, sent, j, x.(telemetry := x.telemetry + [Record(j, x.id)]))
  {
    var i :| 0 <= i < |sent| && x == Answered(r, j + 1, sent[i]);
    assert Trail(r, j, x.id) == Trail(r, j + 1, x.id) + [Record(j, x.id)];
    assert x.(telemetry := x.telemetry + [Record(j, x.id)]) == Answered(r, j, sent[i]);
  }

  /** Answering the head of the pending queue, with a result or with an error. */
  lemma {:induction false} AnswerPending(received: seq<Result>, h: Hop, x: Result)
    requires h.pending != [] && x.id == h.pending[0].requestId
    ensures var h' := h.(pending := h.pending[1..], outbox := h.outbox + [x], returned := h.returned + 1);
      var ids, i := FrontIds(received, h), |GoodIds(received + h.outbox)|;
      i < |ids| && FrontIds(received, h') == if x.ok then ids else WithoutAt(ids, i)
  {
    hide GoodIds, PendingIds, WorkIds, WithoutAt;
    GoodAppend(received + h.outbox, x);
    Associate(received, h.outbox, [x]);
    PendingTail(h.pending);
    var good, rest, work := GoodIds(received + h.outbox), PendingIds(h.pending[1..]), WorkIds(h.inbox);
    Boundary(good, x.id, rest, work);
    assert good + [] == good;
  }

  lemma {:induction false} ReceiveKeeps(r: Route, s: State, s': State)
    requires Inv(r, s) && Receive(r, s, s')
    ensures Inv(r, s')
  {
    hide GoodIds, GoodAnswers, Ordered, FromRequest, Answers;
    var h := s.hops[0];
    assert Content(r, s.sent, 0, h);
    GoodAnswersRest(r, s.sent, 0, h.outbox);
    GoodAnswersMore(r, s.sent, 0, s.received, h.outbox[0]);
    assert Content(r, s.sent, 0, s'.hops[0]);
    var s1 := s.(hops := s'.hops);
    ContentsStep(r, s, s1, 0, 0);
    assert s.received + h.outbox == s'.received + s'.hops[0].outbox;
    assert FrontIds(s'.received, s'.hops[0]) == FrontIds(s.received, h);
    OrderedStep(s, s', 0);
  }

  lemma {:induction false} EvaluationFailsKeeps(r: Route, s: State, s': State, j: nat)
    requires Inv(r, s) && EvaluationFails(s, s', j)
    ensures Inv(r, s')
  {
    hide GoodIds, GoodAnswers, Ordered, FromRequest, Answers, PendingIds, WorkIds, WithoutAt;
    var h, x := s.hops[j], Error(s.hops[j].inbox[0].id);
    assert Content(r, s.sent, j, h);
    GoodAnswersMore(r, s.sent, j, h.outbox, x);
    assert Content(r, s.sent, j, s'.hops[j]);
    ContentsStep(r, s, s', j, j);
    var i := |GoodIds(s.received + s.hops[0].outbox)| + |s.hops[0].pending|;
    if j == 0 {
      var good := GoodIds(s.received + h.outbox);
      GoodAppend(s.received + h.outbox, x);
      Associate(s.received, h.outbox, [x]);
      assert good + [] == good;
      WorkTail(h.inbox);
      Boundary(good, x.id, PendingIds(h.pending), WorkIds(h.inbox[1..]));
    }
    OrderedStep(s, s', i);
  }

  lemma {:induction false} SendFailsKeeps(r: Route, s: State, s': State, j: nat, i: nat)
    requires Inv(r, s) && SendFails(s, s', j, i)
    ensures Inv(r, s')
  {
    hide GoodIds, GoodAnswers, Ordered, FromRequest, Answers, WorkIds;
    var h, x := s.hops[j], Error(s.hops[j].busy.value.id);
    assert Content(r, s.sent, j, h);
    GoodAnswersMore(r, s.sent, j, h.outbox, x);
    assert Content(r, s.sent, j, s'.hops[j]);
    ContentsStep(r, s, s', j, j);
    var k := |GoodIds(s.received + s.hops[0].outbox)| + i;
    if j == 0 {
      var good := GoodIds(s.received + h.outbox);
      GoodAppend(s.received + h.outbox, x);
      Associate(s.received, h.outbox, [x]);
      assert good + [] == good;
      assert PendingIds(WithoutAt(h.pending, i)) == WithoutAt(PendingIds(h.pending), i);
      TakeFromMiddle(good, PendingIds(h.pending), WorkIds(h.inbox), i);
    }
    OrderedStep(s, s', k);
  }

  lemma {:induction false} SendFailsLateKeeps(r: Route, s: State, s': State, j: nat)
    requires Inv(r, s) && SendFailsLate(s, s', j)
    ensures Inv(r, s')
  {
    hide GoodIds, GoodAnswers, Ordered, FromRequest, Answers, WorkIds, PendingIds;
    var h, x := s.hops[j], Error(s.hops[j].busy.value.id);
    assert Content(r, s.sent, j, h);
    GoodAnswersMore(r, s.sent, j, h.outbox, x);
    assert Content(r, s.sent, j, s'.hops[j]);
    ContentsStep(r, s, s', j, j);
    if j == 0 {
      var good := GoodIds(s.received + h.outbox);
      GoodAppend(s.received + h.outbox, x);
      Associate(s.received, h.outbox, [x]);
      assert good + [] == good;
    }
    OrderedStep(s, s', 0);
  }

  lemma {:induction false} RelayFailsKeeps(r: Route, s: State, s': State, j: nat, taken: bool, answers: bool)
    requires Inv(r, s) && RelayFails(s, s', j, taken, answers)
    ensures Inv(r, s')
  {
    hide GoodIds, GoodAnswers, Ordered, FromRequest, Answers, FrontIds;
    var h, n := s.hops[j], s.hops[j + 1];
    assert Content(r, s.sent, j, h) && Content(r, s.sent, j + 1, n);
    if taken { GoodAnswersRest(r, s.sent, j + 1, n.outbox); }
    if h.pending != [] {
      var x := Error(h.pending[0].requestId);
      GoodAnswersMore(r, s.sent, j, h.outbox, x);
      if j == 0 {
        AnswerPending(s.received, h, x);
        ReturnedIrrelevant(s.received, h.(pending := h.pending[1..], outbox := h.outbox + [x]), h.returned + 1);
        ErrorIrrelevant(s.received, h.(pending := h.pending[1..]), x);
      }
    }
    assert Content(r, s.sent, j, s'.hops[j]) && Content(r, s.sent, j + 1, s'.hops[j + 1]);
    ContentsStep(r, s, s', j, j + 1);
    OrderedStep(s, s', |GoodIds(s.received + s.hops[0].outbox)|);
  }

  lemma {:induction false} ErrorIrrelevant(received: seq<Result>, h: Hop, x: Result)
    requires !x.ok
    ensures FrontIds(received, h.(outbox := h.outbox + [x])) == FrontIds(received, h)
  {
    hide GoodIds, PendingIds, WorkIds;
    GoodAppend(received + h.outbox, x);
    Associate(received, h.outbox, [x]);
    var good := GoodIds(received + h.outbox);
    assert good + [] == good;
  }

  lemma {:induction false} ReturnedIrrelevant(received: seq<Result>, h: Hop, n: nat)
    ensures FrontIds(received, h.(returned := n)) == FrontIds(received, h)
  {
  }

  lemma {:induction false} StepKeeps(r: Route, s: State, s': State)
    requires Inv(r, s) && 0 < |s.hops| && Next(r, s, s')
    ensures Inv(r, s')
  {
    hide Inv, NextRequest, Evaluate, Forward, Answer, PassBack, Receive;
    hide EvaluationFails, SendFails, SendFailsLate, RelayFails;
    if w :| NextRequest(r, s, s', w) {
      SubmitKeeps(r, s, s', w);
    } else if j: nat :| Evaluate(r, s, s', j) {
      EvaluateKeeps(r, s, s', j);
    } else if j: nat :| Forward(r, s, s', j) {
      ForwardKeeps(r, s, s', j);
    } else if j: nat :| Answer(r, s, s', j) {
      AnswerKeeps(r, s, s', j);
    } else if j: nat :| PassBack(r, s, s', j) {
      PassBackKeeps(r, s, s', j);
    } else if Receive(r, s, s') {
      ReceiveKeeps(r, s, s');
    } else if j: nat :| EvaluationFails(s, s', j) {
      EvaluationFailsKeeps(r, s, s', j);
    } else if j: nat, i: nat :| SendFails(s, s', j, i) {
      SendFailsKeeps(r, s, s', j, i);
    } else if j: nat :| SendFailsLate(s, s', j) {
      SendFailsLateKeeps(r, s, s', j);
    } else {
      var j: nat, taken, answers :| RelayFails(s, s', j, taken, answers);
      RelayFailsKeeps(r, s, s', j, taken, answers);
    }
  }

  lemma {:induction false} RunInv(r: Route, run: seq<State>, n: nat)
    requires IsRun(r, run) && n < |run|
    ensures Inv(r, run[n])
  {
    if n == 0 {
      assert forall j :: 0 <= j < r.k ==> run[0].hops[j] == Hop([], [], None, [], 0, 0);
      assert FrontIds([], run[0].hops[0]) == [];
    } else {
      hide Inv, Next;
      RunInv(r, run, n - 1);
      assert Next(r, run[n - 1], run[n - 1 + 1]);
      StepKeeps(r, run[n - 1], run[n]);
    }
  }

  /** In every run, failing ones too: each successful result that reaches the coordinator is the right answer to a
      request, with exactly k telemetry records, last hop first, and successful results come in request order, none
      twice. */
  lemma {:induction false} SuccessesAreRight(r: Route, run: seq<State>, n: nat)
    requires IsRun(r, run) && n < |run|
    ensures GoodAnswers(r, run[n].sent, 0, run[n].received)
    ensures Increasing(GoodIds(run[n].received)) && Increasing(WorkIds(run[n].sent))
  {
    hide GoodIds, GoodAnswers, Content;
    RunInv(r, run, n);
    var s := run[n];
    var all, good := FrontIds(s.received, s.hops[0]), GoodIds(s.received);
    GoodPrefix(s.received, s.hops[0].outbox);
    assert forall m :: 0 <= m < |good| ==> good[m] == all[m];
  }
}
