/** The two bounded queues of a worker: the forwarder's pending requests (distributed.c:6319-6428) and the prefetch
    queue of received WORK frames (distributed.c:7604-7733).  A condition-variable wait is a precondition of the
    step it guards: the method body is what runs once the wait is over. */
module WorkQueues {

  /** The part of a telemetry record that names its origin, and the time the forwarder fills in later. */
  datatype Telemetry = Telemetry(hop: nat, request: nat, forwardSendUsec: nat)

  datatype Pending = Pending(requestId: nat, telemetry: Telemetry, downstreamT0: int)

  function Sent(p: Pending, usec: nat, t0: int): Pending {
    Pending(p.requestId, p.telemetry.(forwardSendUsec := usec), t0)
  }

  ghost predicate NoneHas(pending: seq<Pending>, requestId: nat) {
    forall k :: 0 <= k < |pending| ==> pending[k].requestId != requestId
  }

  ghost predicate IsFirst(pending: seq<Pending>, requestId: nat, i: int) {
    0 <= i < |pending| && pending[i].requestId == requestId && NoneHas(pending[..i], requestId)
  }

  class Forwarder {
    const depth: nat
    var pending: seq<Pending>
    var pendingCount: nat
    var closing: bool

    /** The count the window test reads is the length of the queue, and it never exceeds the window. */
    ghost predicate Valid()
      reads this
    {
      pendingCount == |pending| && (depth != 0 ==> |pending| <= depth)
    }

    constructor (depth: nat)
      ensures Valid() && pending == [] && !closing && this.depth == depth
    {
      this.depth, pending, pendingCount, closing := depth, [], 0, false;
    }

    method Enqueue(requestId: nat, telemetry: Telemetry, t0: int) returns (ok: bool)
      requires Valid()
      requires closing || depth == 0 || pendingCount < depth
      modifies this
      ensures Valid() && ok == !old(closing) && closing == old(closing)
      ensures pending == old(pending) + if ok then [Pending(requestId, telemetry, t0)] else []
    {
      if closing { return false; }
      pending := pending + [Pending(requestId, telemetry, t0)];
      pendingCount := pendingCount + 1;
      return true;
    }

    method Pop() returns (ok: bool, p: Pending)
      requires Valid()
      modifies this
      ensures Valid() && closing == old(closing) && ok == (old(pending) != [])
      ensures if ok then old(pending) == [p] + pending else pending == []
    {
      if pending == [] { return false, Pending(0, Telemetry(0, 0, 0), 0); }
      ok, p := true, pending[0];
      pending := pending[1..];
      if pendingCount != 0 { pendingCount := pendingCount - 1; }
    }

    /** Takes out the first request with the id; the others keep their order. */
    method Remove(requestId: nat) returns (ok: bool)
      requires Valid()
      modifies this
      ensures Valid() && closing == old(closing)
      ensures !ok <==> NoneHas(old(pending), requestId)
      ensures !ok ==> pending == old(pending)
      ensures ok ==> exists i :: IsFirst(old(pending), requestId, i) && pending == old(pending)[..i] + old(pending)[i + 1..]
    {
      for i := 0 to |pending|
        invariant Valid() && pending == old(pending) && closing == old(closing)
        invariant forall k :: 0 <= k < i ==> pending[k].requestId != requestId
      {
        if pending[i].requestId == requestId {
          assert IsFirst(pending, requestId, i);
          pending := pending[..i] + pending[i + 1..];
          if pendingCount != 0 { pendingCount := pendingCount - 1; }
          return true;
        }
      }
      return false;
    }

    /** Records the send time and t0 in the first matching request and changes nothing else. */
    method NoteSendDone(requestId: nat, usec: nat, t0: int)
      requires Valid()
      modifies this
      ensures Valid() && closing == old(closing)
      ensures NoneHas(old(pending), requestId) ==> pending == old(pending)
      ensures forall i {:trigger IsFirst(old(pending), requestId, i)} :: IsFirst(old(pending), requestId, i) ==>
        pending == old(pending)[i := Sent(old(pending)[i], usec, t0)]
    {
      for i := 0 to |pending|
        invariant Valid() && pending == old(pending) && closing == old(closing)
        invariant forall k :: 0 <= k < i ==> pending[k].requestId != requestId
      {
        if pending[i].requestId == requestId {
          assert forall j :: IsFirst(pending, requestId, j) ==> j == i;
          pending := pending[i := Sent(pending[i], usec, t0)];
          return;
        }
      }
    }

    method Clear()
      modifies this
      ensures Valid() && pending == [] && closing == old(closing)
    {
      pending, pendingCount := [], 0;
    }

    method Close()
      requires Valid()
      modifies this
      ensures Valid() && closing && pending == old(pending)
    {
      closing := true;
    }
  }

  /** The prefetch queue with its history: accepted holds every job that Enqueue took, processed every job that the
      evaluation thread popped. */
  class JobQueue<T> {
    const depth: nat
    var jobs: seq<T>
    var queued: nat
    var closed: bool
    var canceled: bool
    ghost var accepted: seq<T>
    ghost var processed: seq<T>

    /** Jobs leave in the order they came: unless the queue was cancelled, what has not been processed is queued. */
    ghost predicate Valid()
      reads this
    {
      && queued == |jobs| <= depth
      && (canceled ==> closed && jobs == [] && processed <= accepted)
      && (!canceled ==> accepted == processed + jobs)
    }

    constructor (depth: nat)
      ensures Valid() && jobs == accepted == processed == [] && !closed && !canceled && this.depth == depth
    {
      this.depth := depth;
      jobs, queued, closed, canceled, accepted, processed := [], 0, false, false, [], [];
    }

    method Enqueue(job: T) returns (ok: bool)
      requires Valid()
      requires closed || canceled || queued < depth
      modifies this
      ensures Valid() && closed == old(closed) && canceled == old(canceled) && processed == old(processed)
      ensures ok == !old(closed)
      ensures accepted == old(accepted) + if ok then [job] else []
    {
      if closed || canceled { return false; }
      jobs := jobs + [job];
      queued := queued + 1;
      accepted := accepted + [job];
      return true;
    }

    /** None ends the evaluation thread. */
    method Pop() returns (ok: bool, job: seq<T>)
      requires Valid()
      requires jobs != [] || closed || canceled
      modifies this
      ensures Valid() && closed == old(closed) && canceled == old(canceled) && accepted == old(accepted)
      ensures ok == (!old(canceled) && old(jobs) != [])
      ensures ok ==> |job| == 1 && job[0] == old(jobs)[0] && processed == old(processed) + job
      ensures !ok ==> processed == old(processed) && job == []
      // A finished, uncancelled queue is left only when every accepted job was processed, once and in order.
      ensures !ok && !canceled ==> processed == accepted
    {
      if canceled || jobs == [] { return false, []; }
      ok, job := true, [jobs[0]];
      jobs := jobs[1..];
      queued := queued - 1;
      processed := processed + job;
    }

    method Finish()
      requires Valid()
      modifies this
      ensures Valid() && closed && canceled == old(canceled) && jobs == old(jobs)
      ensures accepted == old(accepted) && processed == old(processed)
    {
      closed := true;
    }

    method Cancel()
      requires Valid()
      modifies this
      ensures Valid() && closed && canceled && jobs == []
      ensures accepted == old(accepted) && processed == old(processed)
    {
      closed, canceled, jobs, queued := true, true, [], 0;
    }

    /** The evaluation thread on a closed queue: it pops until told to stop, and a job that fails cancels the rest.
        Unless one fails every accepted job is processed, once and in order. */
    method Drain(succeeds: T -> bool)
      requires Valid() && closed && !canceled
      modifies this
      ensures Valid() && closed && jobs == [] && accepted == old(accepted)
      ensures old(processed) <= processed <= accepted
      ensures forall i :: |old(processed)| <= i < |processed| - 1 ==> succeeds(processed[i])
      ensures canceled <==> exists i :: |old(processed)| <= i < |accepted| && !succeeds(accepted[i])
      ensures if canceled then processed != [] && !succeeds(processed[|processed| - 1]) else processed == accepted
    {
      while true
        invariant Valid() && closed && !canceled && accepted == old(accepted)
        invariant old(processed) <= processed
        invariant forall i :: |old(processed)| <= i < |processed| ==> succeeds(processed[i])
        decreases |jobs|
      {
        var ok, job := Pop();
        if !ok { return; }
        assert accepted[|processed| - 1] == job[0];
        if !succeeds(job[0]) {
          Cancel();
          return;
        }
      }
    }
  }
}
