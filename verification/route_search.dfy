/** The coordinator's search for a contiguous chain of workers (dist_route_search_workers in distributed.c). */
module RouteSearch {
  import opened Words

  /** A registered worker.  The id stands for the identity of its connection. */
  datatype Worker = Worker(
    id: nat,
    host: seq<u8>,
    port: nat,
    start: nat,
    end: nat,
    hasOutput: bool,
    hasHidden: bool)

  const NI_MAXHOST := 1025

  /** A host name as getnameinfo returns it in a buffer of NI_MAXHOST bytes. */
  predicate HostOk(host: seq<u8>) {
    0 < |host| < NI_MAXHOST && forall i :: 0 <= i < |host| ==> host[i] != 0
  }

  /** What HELLO admission guarantees about a worker. */
  predicate Admitted(w: Worker, nLayers: nat) {
    && HostOk(w.host) && 0 < w.port <= 65535
    && w.start <= w.end < nLayers && (w.hasOutput ==> w.end + 1 == nLayers)
  }

  predicate CandidateOk(localHead: bool, w: Worker, last: nat) {
    var needsHidden := w.end < last || !w.hasOutput;
    (needsHidden ==> w.hasHidden) && (w.end >= last && !w.hasOutput ==> localHead)
  }

  // ---------- Specification: chains of workers ----------

  /** p is an admissible chain: contiguous from layer next, ending with the first hop that reaches layer last. */
  ghost predicate Chain(localHead: bool, ws: set<Worker>, next: nat, last: nat, p: seq<Worker>)
    decreases |p|
  {
    && p != []
    && p[0] in ws && p[0].start == next && CandidateOk(localHead, p[0], last)
    && if p[0].end >= last then |p| == 1 else Chain(localHead, ws, p[0].end + 1, last, p[1..])
  }

  /** p is an admissible chain that stops short of layer last and needs layer r next. */
  ghost predicate Reaches(localHead: bool, ws: set<Worker>, next: nat, last: nat, p: seq<Worker>, r: nat)
    decreases |p|
  {
    if p == [] then r == next
    else
      && p[0] in ws && p[0].start == next && CandidateOk(localHead, p[0], last) && p[0].end < last
      && Reaches(localHead, ws, p[0].end + 1, last, p[1..], r)
  }

  ghost predicate HasChain(localHead: bool, ws: set<Worker>, next: nat, last: nat) {
    exists p :: Chain(localHead, ws, next, last, p)
  }

  ghost predicate CanReach(localHead: bool, ws: set<Worker>, next: nat, last: nat, r: nat) {
    exists p :: Reaches(localHead, ws, next, last, p, r)
  }

  ghost predicate NoneBeyond(localHead: bool, ws: set<Worker>, next: nat, last: nat, bound: nat) {
    forall p, r: nat :: Reaches(localHead, ws, next, last, p, r) ==> r <= bound
  }

  /** r is the furthest layer that some admissible chain from next can reach without finishing. */
  ghost predicate Furthest(localHead: bool, ws: set<Worker>, next: nat, last: nat, r: nat) {
    CanReach(localHead, ws, next, last, r) && NoneBeyond(localHead, ws, next, last, r)
  }

  // ---------- The same in the fields of the workers ----------

  /** A contiguous sequence of workers from layer next on. */
  ghost predicate Contiguous(ws: set<Worker>, next: nat, p: seq<Worker>) {
    && (forall i :: 0 <= i < |p| ==> p[i] in ws)
    && (p != [] ==> p[0].start == next)
    && (forall i :: 0 <= i < |p| - 1 ==> p[i + 1].start == p[i].end + 1)
  }

  /** A chain is a contiguous sequence in which every hop but the last stops before layer last and passes hidden states
      on, and the last reaches it and has the output head, or passes hidden states back to a coordinator that has it. */
  lemma {:induction false} ChainIff(localHead: bool, ws: set<Worker>, next: nat, last: nat, p: seq<Worker>)
    ensures Chain(localHead, ws, next, last, p) <==>
      && p != [] && Contiguous(ws, next, p)
      && (forall i :: 0 <= i < |p| - 1 ==> p[i].end < last && p[i].hasHidden)
      && p[|p| - 1].end >= last && (p[|p| - 1].hasOutput || (p[|p| - 1].hasHidden && localHead))
    decreases |p|
  {
    if p != [] {
      var q := p[1..];
      ContiguousTail(ws, next, p);
      if q != [] {
        ChainIff(localHead, ws, p[0].end + 1, last, q);
        assert forall i :: 0 <= i < |q| ==> q[i] == p[i + 1];
        assert forall i :: 1 <= i < |p| ==> p[i] == q[i - 1];
      }
    }
  }

  lemma {:induction false} ContiguousTail(ws: set<Worker>, next: nat, p: seq<Worker>)
    requires p != []
    ensures Contiguous(ws, next, p) <==> p[0] in ws && p[0].start == next && Contiguous(ws, p[0].end + 1, p[1..])
  {
    var q := p[1..];
    assert forall i :: 0 <= i < |q| ==> q[i] == p[i + 1];
    assert forall i :: 1 <= i < |p| ==> p[i] == q[i - 1];
  }

  /** A partial chain is a contiguous sequence whose hops all stop before layer last and pass hidden states on; the next
      layer it needs is the one behind it. */
  lemma {:induction false} ReachesIff(localHead: bool, ws: set<Worker>, next: nat, last: nat, p: seq<Worker>, r: nat)
    ensures Reaches(localHead, ws, next, last, p, r) <==>
      && Contiguous(ws, next, p)
      && (forall i :: 0 <= i < |p| ==> p[i].end < last && p[i].hasHidden)
      && r == if p == [] then next else p[|p| - 1].end + 1
    decreases |p|
  {
    if p != [] {
      var q := p[1..];
      ContiguousTail(ws, next, p);
      ReachesIff(localHead, ws, p[0].end + 1, last, q, r);
      assert forall i :: 0 <= i < |q| ==> q[i] == p[i + 1];
      assert forall i :: 1 <= i < |p| ==> p[i] == q[i - 1];
    }
  }

  ghost predicate SortedByStart(ws: seq<Worker>) {
    forall i, j :: 0 <= i < j < |ws| ==> ws[i].start <= ws[j].start
  }

  ghost function Elements(ws: seq<Worker>): set<Worker> {
    set w | w in ws
  }

  /** A hop on a chain covers its layers; together the hops cover next..last, each layer once. */
  lemma {:induction false} ChainCovers(localHead: bool, ws: set<Worker>, next: nat, last: nat, p: seq<Worker>, layer: nat)
    requires Chain(localHead, ws, next, last, p)
    requires forall w :: w in ws ==> w.start <= w.end <= last
    requires next <= layer <= last
    ensures exists i :: 0 <= i < |p| && p[i].start <= layer <= p[i].end
    ensures forall i, j :: 0 <= i < j < |p| ==> !(p[i].start <= layer <= p[i].end && p[j].start <= layer <= p[j].end)
    decreases |p|
  {
    ChainShape(localHead, ws, next, last, p);
    if layer > p[0].end {
      ChainCovers(localHead, ws, p[0].end + 1, last, p[1..], layer);
      var i :| 0 <= i < |p[1..]| && p[1..][i].start <= layer <= p[1..][i].end;
      assert p[i + 1] == p[1..][i];
    }
    forall i, j | 0 <= i < j < |p| && p[i].start <= layer <= p[i].end && p[j].start <= layer <= p[j].end
      ensures false
    {
      ChainOrdered(localHead, ws, next, last, p, i, j);
    }
  }

  /** Consecutive hops abut, the first starts at next, only the last reaches last, and every hop is a candidate. */
  lemma {:induction false} ChainShape(localHead: bool, ws: set<Worker>, next: nat, last: nat, p: seq<Worker>)
    requires Chain(localHead, ws, next, last, p)
    ensures p != [] && p[0].start == next && p[|p| - 1].end >= last
    ensures forall i :: 0 <= i < |p| ==> p[i] in ws && CandidateOk(localHead, p[i], last)
    ensures forall i :: 0 <= i < |p| - 1 ==> p[i].end < last && p[i + 1].start == p[i].end + 1
    decreases |p|
  {
    if p[0].end < last {
      var q := p[1..];
      ChainShape(localHead, ws, p[0].end + 1, last, q);
      assert forall i :: 1 <= i < |p| ==> p[i] == q[i - 1];
    }
  }

  lemma {:induction false} ChainOrdered(localHead: bool, ws: set<Worker>, next: nat, last: nat, p: seq<Worker>, i: nat, j: nat)
    requires Chain(localHead, ws, next, last, p)
    requires forall w :: w in ws ==> w.start <= w.end <= last
    requires i < j < |p|
    ensures p[i].end < p[j].start
    decreases j
  {
    ChainShape(localHead, ws, next, last, p);
    if j > i + 1 {
      ChainOrdered(localHead, ws, next, last, p, i, j - 1);
    }
    assert p[(j - 1) + 1].start == p[j - 1].end + 1;
  }

  // ---------- The search ----------

  /** Depth-first search.  path is the shared array of |workers| entries, pathLen and missing the in-out
      parameters.  Its result does not depend on which sorted order the workers come in. */
  method Search(localHead: bool, workers: seq<Worker>, next: nat, last: nat, path: array<Worker>,
                pathLen: nat, missing: nat)
    returns (found: bool, pathLen': nat, missing': nat)
    requires SortedByStart(workers)
    requires forall w :: w in workers ==> w.start <= w.end
    requires path.Length == |workers| && pathLen <= |workers|
    // Every worker that can still be appended sits at index pathLen or later, so path cannot overflow.
    requires forall j :: 0 <= j < |workers| && workers[j].start >= next ==> pathLen <= j
    requires next <= missing
    modifies path
    ensures pathLen' <= path.Length
    ensures found <==> HasChain(localHead, Elements(workers), next, last)
    ensures pathLen <= pathLen' && path[..pathLen] == old(path[..pathLen])
    ensures found ==> Chain(localHead, Elements(workers), next, last, path[pathLen..pathLen'])
    ensures !found ==> pathLen' == pathLen && missing <= missing'
    ensures !found ==>
      && NoneBeyond(localHead, Elements(workers), next, last, missing')
      && (missing' == missing || CanReach(localHead, Elements(workers), next, last, missing'))
    decreases if next <= last then last + 1 - next else 0, 1
  {
    ghost var ws := Elements(workers);
    pathLen', missing' := pathLen, missing;
    var sawStart := false;
    var i := 0;
    while i < |workers|
      invariant 0 <= i <= |workers|
      invariant pathLen' == pathLen && path[..pathLen] == old(path[..pathLen])
      invariant missing <= missing'
      invariant sawStart <==> exists j :: 0 <= j < i && workers[j].start == next
      invariant forall j :: 0 <= j < i ==> DeadEnd(localHead, ws, next, last, workers[j], missing')
      invariant missing' == missing || CanReach(localHead, ws, next, last, missing')
    {
      var w := workers[i];
      NotAHop(localHead, ws, next, last, w, missing');
      if w.start < next { i := i + 1; continue; }
      if w.start > next { break; }
      sawStart := true;
      if !CandidateOk(localHead, w, last) { i := i + 1; continue; }

      var childFound, childLen, childMissing := TryHop(localHead, workers, w, i, last, path, pathLen');
      if childFound { return true, childLen, missing'; }
      DeadEndMono(localHead, ws, next, last, missing', childMissing);
      if childMissing > missing' { missing' := childMissing; }
      i := i + 1;
    }
    AllDeadEnds(localHead, workers, next, last, i, missing');
    if !sawStart && next > missing' { missing' := next; }
    found := false;
  }

  /** Put candidate w = workers[i] on the path and search on behind it; take it off again if that fails. */
  method TryHop(localHead: bool, workers: seq<Worker>, w: Worker, ghost i: nat, last: nat, path: array<Worker>, pathLen: nat)
    returns (found: bool, pathLen': nat, childMissing: nat)
    requires SortedByStart(workers)
    requires forall v :: v in workers ==> v.start <= v.end
    requires i < |workers| && workers[i] == w && CandidateOk(localHead, w, last)
    requires path.Length == |workers| && pathLen <= i
    modifies path
    ensures pathLen <= pathLen' <= path.Length && path[..pathLen] == old(path[..pathLen])
    ensures found ==> Chain(localHead, Elements(workers), w.start, last, path[pathLen..pathLen'])
    ensures found ==> HasChain(localHead, Elements(workers), w.start, last)
    ensures !found ==> pathLen' == pathLen
    ensures !found ==> DeadEnd(localHead, Elements(workers), w.start, last, w, childMissing)
    ensures !found ==> CanReach(localHead, Elements(workers), w.start, last, childMissing)
    decreases if w.start <= last then last + 1 - w.start else 0, 0
  {
    ghost var ws := Elements(workers);
    path[pathLen] := w;
    childMissing := w.end + 1;
    if w.end >= last {
      ChainOne(localHead, ws, w.start, last, w);
      assert path[pathLen..pathLen + 1] == [w];
      return true, pathLen + 1, childMissing;
    }
    ghost var before := path[..pathLen + 1];
    found, pathLen', childMissing := Search(localHead, workers, w.end + 1, last, path, pathLen + 1, childMissing);
    assert path[..pathLen] == before[..pathLen];
    if found {
      assert path[pathLen] == before[pathLen];
      assert path[pathLen..pathLen'] == [w] + path[pathLen + 1..pathLen'];
      ChainCons(localHead, ws, w.start, last, w, path[pathLen + 1..pathLen']);
    } else {
      pathLen' := pathLen' - 1;
      DeadEndBelow(localHead, ws, w.start, last, w, childMissing);
    }
  }

  /** No chain that begins with w finishes, and none gets past bound. */
  ghost predicate DeadEnd(localHead: bool, ws: set<Worker>, next: nat, last: nat, w: Worker, bound: nat) {
    && (forall p :: Chain(localHead, ws, next, last, p) ==> p[0] != w)
    && (forall p, r: nat :: Reaches(localHead, ws, next, last, p, r) && p != [] && p[0] == w ==> r <= bound)
  }

  lemma {:induction false} NotAHop(localHead: bool, ws: set<Worker>, next: nat, last: nat, w: Worker, bound: nat)
    ensures w.start != next || !CandidateOk(localHead, w, last) ==> DeadEnd(localHead, ws, next, last, w, bound)
  {
  }

  lemma {:induction false} DeadEndMono(localHead: bool, ws: set<Worker>, next: nat, last: nat, a: nat, b: nat)
    ensures forall w :: DeadEnd(localHead, ws, next, last, w, a) && a <= b ==> DeadEnd(localHead, ws, next, last, w, b)
    ensures forall w :: DeadEnd(localHead, ws, next, last, w, b) && b <= a ==> DeadEnd(localHead, ws, next, last, w, a)
  {
  }

  lemma {:induction false} ChainOne(localHead: bool, ws: set<Worker>, next: nat, last: nat, w: Worker)
    requires w in ws && w.start == next && CandidateOk(localHead, w, last) && w.end >= last
    ensures Chain(localHead, ws, next, last, [w]) && HasChain(localHead, ws, next, last)
  {
    assert Chain(localHead, ws, next, last, [w]);
  }

  lemma {:induction false} ChainCons(localHead: bool, ws: set<Worker>, next: nat, last: nat, w: Worker, rest: seq<Worker>)
    requires w in ws && w.start == next && CandidateOk(localHead, w, last) && w.end < last
    requires Chain(localHead, ws, w.end + 1, last, rest)
    ensures Chain(localHead, ws, next, last, [w] + rest) && HasChain(localHead, ws, next, last)
  {
    assert ([w] + rest)[1..] == rest;
    assert Chain(localHead, ws, next, last, [w] + rest);
  }

  /** When every worker before index i is a dead end and the rest start too late, the search has failed. */
  lemma {:induction false} AllDeadEnds(localHead: bool, workers: seq<Worker>, next: nat, last: nat, i: nat, bound: nat)
    requires SortedByStart(workers)
    requires i <= |workers| && (i < |workers| ==> workers[i].start > next)
    requires forall j :: 0 <= j < i ==> DeadEnd(localHead, Elements(workers), next, last, workers[j], bound)
    requires next <= bound
    ensures !HasChain(localHead, Elements(workers), next, last)
    ensures NoneBeyond(localHead, Elements(workers), next, last, bound)
  {
    var ws := Elements(workers);
    forall w | w in ws && w.start == next ensures DeadEnd(localHead, ws, next, last, w, bound) {
      var j :| 0 <= j < |workers| && workers[j] == w;
    }
    forall p, r: nat | Reaches(localHead, ws, next, last, p, r) ensures r <= bound {
      if p != [] { assert DeadEnd(localHead, ws, next, last, p[0], bound); }
    }
  }

  /** What a failed search below candidate w says about chains that begin with w. */
  lemma {:induction false} DeadEndBelow(localHead: bool, ws: set<Worker>, next: nat, last: nat, w: Worker, childMissing: nat)
    requires w in ws && w.start == next && CandidateOk(localHead, w, last) && w.end < last
    requires !HasChain(localHead, ws, w.end + 1, last)
    requires NoneBeyond(localHead, ws, w.end + 1, last, childMissing)
    requires childMissing == w.end + 1 || CanReach(localHead, ws, w.end + 1, last, childMissing)
    ensures DeadEnd(localHead, ws, next, last, w, childMissing)
    ensures CanReach(localHead, ws, next, last, childMissing)
  {
    var q: seq<Worker> := [];
    if childMissing != w.end + 1 {
      q :| Reaches(localHead, ws, w.end + 1, last, q, childMissing);
    }
    assert Reaches(localHead, ws, w.end + 1, last, q, childMissing);
    var p := [w] + q;
    assert p[1..] == q;
    assert Reaches(localHead, ws, next, last, p, childMissing);
  }

  /** A route from layer next to layer last, in the fields of its workers. */
  ghost predicate IsRoute(localHead: bool, ws: seq<Worker>, next: nat, last: nat, p: seq<Worker>) {
    && p != [] && (forall i :: 0 <= i < |p| ==> p[i] in ws)
    && p[0].start == next && (forall i :: 0 <= i < |p| - 1 ==> p[i + 1].start == p[i].end + 1)
    && (forall i :: 0 <= i < |p| - 1 ==> p[i].end < last && p[i].hasHidden)
    && p[|p| - 1].end >= last && (p[|p| - 1].hasOutput || (p[|p| - 1].hasHidden && localHead))
  }

  /** A contiguous sequence of workers from layer next that stops before layer last, every hop passing hidden states on,
      and needs layer r next. */
  ghost predicate IsPartialRoute(ws: seq<Worker>, next: nat, last: nat, p: seq<Worker>, r: nat) {
    && (forall i :: 0 <= i < |p| ==> p[i] in ws && p[i].end < last && p[i].hasHidden)
    && (p != [] ==> p[0].start == next) && (forall i :: 0 <= i < |p| - 1 ==> p[i + 1].start == p[i].end + 1)
    && r == if p == [] then next else p[|p| - 1].end + 1
  }

  /** r is the furthest layer that a partial route needs next. */
  ghost predicate FurthestNeeded(ws: seq<Worker>, next: nat, last: nat, r: nat) {
    && (exists p :: IsPartialRoute(ws, next, last, p, r))
    && (forall p, q: nat :: IsPartialRoute(ws, next, last, p, q) ==> q <= r)
  }

  lemma {:induction false} FurthestIff(localHead: bool, ws: seq<Worker>, next: nat, last: nat, r: nat)
    ensures Furthest(localHead, Elements(ws), next, last, r) <==> FurthestNeeded(ws, next, last, r)
  {
    forall p, q: nat
      ensures IsPartialRoute(ws, next, last, p, q) <==> Reaches(localHead, Elements(ws), next, last, p, q)
    {
      ReachesIff(localHead, Elements(ws), next, last, p, q);
    }
    hide IsPartialRoute, Reaches;
    if Furthest(localHead, Elements(ws), next, last, r) {
      var p :| Reaches(localHead, Elements(ws), next, last, p, r);
      assert IsPartialRoute(ws, next, last, p, r);
    }
    if FurthestNeeded(ws, next, last, r) {
      var p :| IsPartialRoute(ws, next, last, p, r);
      assert Reaches(localHead, Elements(ws), next, last, p, r);
    }
  }

  lemma {:induction false} RouteIsChain(localHead: bool, ws: seq<Worker>, next: nat, last: nat)
    ensures forall p :: IsRoute(localHead, ws, next, last, p) <==> Chain(localHead, Elements(ws), next, last, p)
    ensures HasChain(localHead, Elements(ws), next, last) <==> exists p :: IsRoute(localHead, ws, next, last, p)
  {
    forall p ensures IsRoute(localHead, ws, next, last, p) <==> Chain(localHead, Elements(ws), next, last, p) {
      ChainIff(localHead, Elements(ws), next, last, p);
    }
    hide IsRoute, Chain;
    if HasChain(localHead, Elements(ws), next, last) {
      var p :| Chain(localHead, Elements(ws), next, last, p);
      assert IsRoute(localHead, ws, next, last, p);
    }
  }

  /** The search as the planner calls it: empty path, missing == next. */
  method FindRoute(localHead: bool, workers: seq<Worker>, next: nat, last: nat)
    returns (found: bool, route: seq<Worker>, missing: nat)
    requires SortedByStart(workers)
    requires forall w :: w in workers ==> w.start <= w.end
    ensures found <==> HasChain(localHead, Elements(workers), next, last)
    ensures found ==> Chain(localHead, Elements(workers), next, last, route)
    ensures found ==> |route| <= |workers|
    // In fields: a route is found exactly when there is one, and it is one; otherwise missing is the furthest need.
    ensures found <==> exists p :: IsRoute(localHead, workers, next, last, p)
    ensures found ==> IsRoute(localHead, workers, next, last, route)
    ensures !found ==> FurthestNeeded(workers, next, last, missing)
    ensures !found ==> Furthest(localHead, Elements(workers), next, last, missing)
  {
    RouteIsChain(localHead, workers, next, last);
    hide IsRoute, FurthestNeeded;
    var n := |workers|;
    if n == 0 {
      found, route, missing := false, [], next;
      assert Reaches(localHead, Elements(workers), next, last, [], next);
      FurthestIff(localHead, workers, next, last, missing);
      return;
    }
    var path := new Worker[n](i => workers[0]);
    var len;
    found, len, missing := Search(localHead, workers, next, last, path, 0, next);
    route := path[0..len];
    if !found {
      assert Reaches(localHead, Elements(workers), next, last, [], next);
      FurthestIff(localHead, workers, next, last, missing);
    }
  }
}
