/** The coordinator's worker registry, its generation counter, and the route plan a session caches against it. */
module Registry {
  import opened Words
  import opened RouteSearch
  import opened RouteBlob

  // ---------- Registry contents ----------

  datatype Key = Key(host: seq<u8>, start: nat, end: nat, hasOutput: bool)

  function KeyOf(w: Worker): Key {
    Key(w.host, w.start, w.end, w.hasOutput)
  }

  predicate Matches(h: Hop, w: Worker) {
    && h.port == w.port && h.host == w.host && h.start == w.start && h.end == w.end
    && (h.flags % 2 == OUTPUT_LOGITS) == w.hasOutput
  }

  ghost predicate KeysUnique(ws: seq<Worker>) {
    forall i, j :: 0 <= i < j < |ws| ==> KeyOf(ws[i]) != KeyOf(ws[j])
  }

  ghost predicate IdsUnique(ws: seq<Worker>) {
    forall i, j :: 0 <= i < j < |ws| ==> ws[i].id != ws[j].id
  }

  ghost predicate AllAdmitted(ws: seq<Worker>, nLayers: u32) {
    forall w :: w in ws ==> Admitted(w, nLayers)
  }

  ghost predicate RegistryOk(ws: seq<Worker>, nLayers: u32) {
    KeysUnique(ws) && IdsUnique(ws) && AllAdmitted(ws, nLayers)
  }

  /** The list without the entries of a key, in order. */
  function WithoutKey(ws: seq<Worker>, key: Key): seq<Worker> {
    if ws == [] then []
    else
      var rest := WithoutKey(ws[..|ws| - 1], key);
      if KeyOf(ws[|ws| - 1]) == key then rest else rest + [ws[|ws| - 1]]
  }

  /** The list without its first entry that matches a hop. */
  function WithoutHop(ws: seq<Worker>, h: Hop): seq<Worker> {
    if ws == [] then []
    else if Matches(h, ws[0]) then ws[1..]
    else [ws[0]] + WithoutHop(ws[1..], h)
  }

  /** The list after the first k hops of a failed plan were forgotten one by one. */
  function Forgotten(ws: seq<Worker>, hops: seq<Hop>, k: nat): seq<Worker>
    requires k <= |hops|
  {
    if k == 0 then ws else WithoutHop(Forgotten(ws, hops, k - 1), hops[k - 1])
  }

  ghost predicate NoMatch(ws: seq<Worker>, h: Hop) {
    forall w :: w in ws ==> !Matches(h, w)
  }

  lemma {:induction false} WithoutKeyMembers(ws: seq<Worker>, key: Key)
    ensures forall w :: w in WithoutKey(ws, key) <==> w in ws && KeyOf(w) != key
  {
    if ws != [] {
      var n := |ws| - 1;
      WithoutKeyMembers(ws[..n], key);
      assert ws == ws[..n] + [ws[n]];
    }
  }

  lemma {:induction false} WithoutKeyOk(ws: seq<Worker>, key: Key, nLayers: u32)
    requires RegistryOk(ws, nLayers)
    ensures RegistryOk(WithoutKey(ws, key), nLayers)
  {
    if ws != [] {
      var n := |ws| - 1;
      assert AllAdmitted(ws[..n], nLayers) by { hide Admitted; assert forall w :: w in ws[..n] ==> w in ws; }
      WithoutKeyOk(ws[..n], key, nLayers);
      WithoutKeyMembers(ws[..n], key);
      hide Admitted, WithoutKey;
      AppendOk(WithoutKey(ws[..n], key), ws[..n], ws[n], nLayers);
    }
  }

  /** Adding at the end an entry that is new to a larger list keeps the registry well formed. */
  lemma {:induction false} AppendOk(rest: seq<Worker>, all: seq<Worker>, w: Worker, nLayers: u32)
    requires RegistryOk(rest, nLayers) && RegistryOk(all + [w], nLayers)
    requires forall v :: v in rest ==> v in all
    ensures RegistryOk(rest + [w], nLayers)
  {
    hide Admitted;
    forall v | v in rest ensures KeyOf(v) != KeyOf(w) && v.id != w.id {
      var i :| 0 <= i < |all| && all[i] == v;
      assert (all + [w])[i] == v && (all + [w])[|all|] == w;
    }
    assert w in all + [w];
  }

  lemma {:induction false} PrependOk(w: Worker, ws: seq<Worker>, nLayers: u32)
    requires RegistryOk(ws, nLayers) && Admitted(w, nLayers)
    requires forall v :: v in ws ==> KeyOf(v) != KeyOf(w) && v.id != w.id
    ensures RegistryOk([w] + ws, nLayers)
  {
    hide Admitted;
  }

  lemma {:induction false} WithoutAtOk(ws: seq<Worker>, i: nat, nLayers: u32)
    requires i < |ws| && RegistryOk(ws, nLayers)
    ensures RegistryOk(WithoutAt(ws, i), nLayers)
    ensures forall w :: w in WithoutAt(ws, i) <==> w in ws && w != ws[i]
  {
    hide Admitted;
    var r := WithoutAt(ws, i);
    assert forall j :: 0 <= j < |r| ==> r[j] == if j < i then ws[j] else ws[j + 1];
    forall w | w in ws && w != ws[i] ensures w in r {
      var j :| 0 <= j < |ws| && ws[j] == w;
      assert r[if j < i then j else j - 1] == w;
    }
  }

  /** With unique keys, dropping the first match of a hop drops every match and nothing else. */
  lemma {:induction false} WithoutHopOk(ws: seq<Worker>, h: Hop, nLayers: u32)
    requires RegistryOk(ws, nLayers)
    ensures RegistryOk(WithoutHop(ws, h), nLayers)
    ensures forall w :: w in WithoutHop(ws, h) <==> w in ws && !Matches(h, w)
    ensures NoMatch(ws, h) ==> WithoutHop(ws, h) == ws
  {
    hide Admitted;
    if ws != [] {
      TailOk(ws, nLayers);
      if Matches(h, ws[0]) {
        assert forall w :: w in ws[1..] ==> KeyOf(w) != KeyOf(ws[0]);
        assert ws[0] in ws;
      } else {
        WithoutHopOk(ws[1..], h, nLayers);
        PrependOk(ws[0], WithoutHop(ws[1..], h), nLayers);
        assert ws == [ws[0]] + ws[1..];
      }
    }
  }

  lemma {:induction false} TailOk(ws: seq<Worker>, nLayers: u32)
    requires ws != [] && RegistryOk(ws, nLayers)
    ensures RegistryOk(ws[1..], nLayers) && Admitted(ws[0], nLayers)
    ensures forall w :: w in ws[1..] ==> w.id != ws[0].id && KeyOf(w) != KeyOf(ws[0])
  {
    hide Admitted;
    assert ws[0] in ws;
    forall w | w in ws[1..] ensures w in ws && w.id != ws[0].id && KeyOf(w) != KeyOf(ws[0]) {
      var i :| 0 <= i < |ws[1..]| && ws[1..][i] == w;
      assert ws[i + 1] == w;
    }
  }

  /** None of the first k hops matches the worker. */
  ghost predicate Spared(hops: seq<Hop>, k: nat, w: Worker)
    requires k <= |hops|
  {
    forall i :: 0 <= i < k ==> !Matches(hops[i], w)
  }

  lemma {:induction false} SparedNext(hops: seq<Hop>, k: nat)
    requires k < |hops|
    ensures forall w :: Spared(hops, k + 1, w) <==> Spared(hops, k, w) && !Matches(hops[k], w)
  {
    hide Matches;
  }

  /** Forgetting a route removes exactly the workers that some hop of it matches. */
  lemma {:induction false} ForgottenOk(ws: seq<Worker>, hops: seq<Hop>, k: nat, nLayers: u32)
    requires k <= |hops| && RegistryOk(ws, nLayers)
    ensures RegistryOk(Forgotten(ws, hops, k), nLayers)
    ensures forall w :: w in Forgotten(ws, hops, k) <==> w in ws && Spared(hops, k, w)
  {
    if k == 0 {
      hide RegistryOk, Matches;
    } else {
      hide RegistryOk, Matches, Spared, WithoutHop;
      ForgottenOk(ws, hops, k - 1, nLayers);
      WithoutHopOk(Forgotten(ws, hops, k - 1), hops[k - 1], nLayers);
      SparedNext(hops, k - 1);
    }
  }

  /** The same in fields: the workers that are gone are those with the host, port, range and output flag of a hop. */
  lemma {:induction false} ForgottenInFields(ws: seq<Worker>, hops: seq<Hop>, nLayers: u32)
    requires RegistryOk(ws, nLayers) && RouteOk(hops, nLayers)
    ensures forall w :: w in ws ==> (w !in Forgotten(ws, hops, |hops|) <==>
      exists i :: 0 <= i < |hops| && hops[i].host == w.host && hops[i].port == w.port
                  && hops[i].start == w.start && hops[i].end == w.end && (hops[i].flags == OUTPUT_LOGITS <==> w.hasOutput))
  {
    ForgottenOk(ws, hops, |hops|, nLayers);
    hide RegistryOk, Forgotten, Admitted, HostOk;
    assert forall i :: 0 <= i < |hops| ==> HopOk(hops[i], nLayers);
  }

  // ---------- Sorting (qsort with dist_worker_route_cmp) ----------

  predicate RouteBefore(a: Worker, b: Worker) {
    if a.start != b.start then a.start < b.start
    else if a.hasOutput != b.hasOutput then a.hasOutput
    else a.end >= b.end
  }

  function InsertSorted(w: Worker, ws: seq<Worker>): seq<Worker> {
    if ws == [] then [w]
    else if RouteBefore(w, ws[0]) then [w] + ws
    else [ws[0]] + InsertSorted(w, ws[1..])
  }

  function RouteOrder(ws: seq<Worker>): seq<Worker> {
    if ws == [] then [] else InsertSorted(ws[0], RouteOrder(ws[1..]))
  }

  ghost predicate InRouteOrder(ws: seq<Worker>) {
    forall i, j :: 0 <= i < j < |ws| ==> RouteBefore(ws[i], ws[j])
  }

  lemma {:induction false} InsertSortedOk(w: Worker, ws: seq<Worker>)
    requires InRouteOrder(ws)
    ensures InRouteOrder(InsertSorted(w, ws))
    ensures Elements(InsertSorted(w, ws)) == {w} + Elements(ws)
  {
    hide InRouteOrder, Elements, RouteBefore;
    if ws == [] {
      SortedNil();
      ElementsCons(w, []);
      ConsSorted(w, []);
      assert [w] == [w] + [];
    } else {
      TailSorted(ws);
      ElementsCons(ws[0], ws[1..]);
      assert ws == [ws[0]] + ws[1..];
      if RouteBefore(w, ws[0]) {
        ElementsCons(w, ws);
        BeforeAll(w, ws[0], Elements(ws));
        ConsSorted(w, ws);
      } else {
        var r := InsertSorted(w, ws[1..]);
        InsertSortedOk(w, ws[1..]);
        ElementsCons(ws[0], r);
        BeforeTotal(w, ws[0]);
        ConsSorted(ws[0], r);
      }
    }
  }

  lemma {:induction false} BeforeTotal(a: Worker, b: Worker)
    ensures RouteBefore(a, b) || RouteBefore(b, a)
    ensures RouteBefore(a, a)
  {
  }

  lemma {:induction false} BeforeAll(a: Worker, b: Worker, ws: set<Worker>)
    requires RouteBefore(a, b) && forall v :: v in ws ==> v == b || RouteBefore(b, v)
    ensures forall v :: v in ws ==> RouteBefore(a, v)
  {
  }

  lemma {:induction false} SortedNil()
    ensures InRouteOrder([]) && Elements([]) == {}
  {
  }

  lemma {:induction false} TailSorted(ws: seq<Worker>)
    requires ws != [] && InRouteOrder(ws)
    ensures InRouteOrder(ws[1..])
    ensures forall w :: w in Elements(ws[1..]) ==> RouteBefore(ws[0], w)
  {
    hide RouteBefore;
    forall w | w in Elements(ws[1..]) ensures RouteBefore(ws[0], w) {
      var i :| 0 <= i < |ws[1..]| && ws[1..][i] == w;
      assert ws[i + 1] == w;
    }
  }

  lemma {:induction false} ConsSorted(w: Worker, ws: seq<Worker>)
    requires InRouteOrder(ws) && forall v :: v in Elements(ws) ==> RouteBefore(w, v)
    ensures InRouteOrder([w] + ws)
  {
    hide RouteBefore;
    assert forall i :: 0 <= i < |ws| ==> ws[i] in Elements(ws);
  }

  lemma {:induction false} ElementsCons(w: Worker, ws: seq<Worker>)
    ensures Elements([w] + ws) == {w} + Elements(ws)
  {
  }

  lemma {:induction false} Ordered(ws: seq<Worker>)
    ensures InRouteOrder(RouteOrder(ws)) && Elements(RouteOrder(ws)) == Elements(ws)
  {
    if ws == [] {
      SortedNil();
    } else {
      hide InsertSorted, InRouteOrder;
      Ordered(ws[1..]);
      InsertSortedOk(ws[0], RouteOrder(ws[1..]));
      assert ws == [ws[0]] + ws[1..];
    }
  }

  /** The order of the search: by start, at the same start those with the output head first, then the longer ranges. */
  lemma {:induction false} RouteOrderOk(ws: seq<Worker>)
    ensures SortedByStart(RouteOrder(ws)) && Elements(RouteOrder(ws)) == Elements(ws)
    ensures var r := RouteOrder(ws); forall i, j :: 0 <= i < j < |r| ==>
      || r[i].start < r[j].start
      || (r[i].start == r[j].start && r[i].hasOutput && !r[j].hasOutput)
      || (r[i].start == r[j].start && r[i].hasOutput == r[j].hasOutput && r[i].end >= r[j].end)
  {
    hide RouteOrder;
    Ordered(ws);
  }

  // ---------- The coordinator ----------

  datatype PlanOutcome = Ready | NotFromLayerZero | Incomplete(missing: nat) | TooLarge

  /** The fixed part of the coordinator: its model and its own slice of layers. */
  datatype Local = Local(nLayers: u32, start: u32, end: u32, hasOutput: bool, canHead: bool) {
    ghost predicate Ok() {
      0 < nLayers && start <= end < nLayers
    }

    /** The coordinator evaluates every layer and the output head itself. */
    predicate Whole() {
      end == nLayers - 1 && (hasOutput || canHead)
    }
  }

  /** The hops take up where the coordinator's slice stops, abut, end at the last layer, and someone has the head. */
  ghost predicate Covers(local: Local, plan: seq<Hop>) {
    && local.Ok() && local.start == 0 && RouteOk(plan, local.nLayers)
    && if local.Whole() then plan == []
       else
         && plan != [] && plan[0].start == local.end + 1
         && plan[|plan| - 1].end == local.nLayers - 1
         && (plan[|plan| - 1].flags == OUTPUT_LOGITS || local.canHead)
  }

  ghost predicate Registered(plan: seq<Hop>, ws: seq<Worker>) {
    forall i :: 0 <= i < |plan| ==> exists w :: w in ws && Matches(plan[i], w)
  }

  ghost predicate Fresh(local: Local, plan: seq<Hop>, ws: seq<Worker>) {
    Covers(local, plan) && Registered(plan, ws)
  }

  /** The plan lists the hosts, ports, ranges and output flags of a route over the workers. */
  ghost predicate PlanOfRoute(local: Local, ws: seq<Worker>, plan: seq<Hop>)
    requires local.Ok()
  {
    exists route :: IsRoute(local.canHead, ws, local.end + 1, local.nLayers - 1, route) && SameHops(route, plan)
  }

  ghost predicate SameHops(route: seq<Worker>, plan: seq<Hop>) {
    && |route| == |plan|
    && forall i :: 0 <= i < |plan| ==>
      && plan[i].host == route[i].host && plan[i].port == route[i].port
      && plan[i].start == route[i].start && plan[i].end == route[i].end
      && plan[i].flags == if route[i].hasOutput then OUTPUT_LOGITS else 0
  }

  lemma {:induction false} PlanIsOfRoute(local: Local, ws: seq<Worker>, route: seq<Worker>)
    requires local.Ok() && forall i :: 0 <= i < |route| ==> Admitted(route[i], local.nLayers)
    requires Chain(local.canHead, Elements(ws), local.end + 1, local.nLayers - 1, route)
    ensures PlanOfRoute(local, ws, HopsOf(route, local.nLayers)) && HopsOf(route, local.nLayers) != []
  {
    assert route != [];
    hide Chain, IsRoute, Admitted;
    RouteIsChain(local.canHead, ws, local.end + 1, local.nLayers - 1);
    assert SameHops(route, HopsOf(route, local.nLayers));
  }

  /** A route found over the registered workers makes a fresh plan. */
  lemma {:induction false} RouteIsFresh(local: Local, ws: seq<Worker>, route: seq<Worker>)
    requires local.Ok() && local.start == 0 && !local.Whole()
    requires AllAdmitted(ws, local.nLayers)
    requires Chain(local.canHead, Elements(ws), local.end + 1, local.nLayers - 1, route)
    ensures forall i :: 0 <= i < |route| ==> Admitted(route[i], local.nLayers)
    ensures Fresh(local, HopsOf(route, local.nLayers), ws)
  {
    hide Chain, RouteOk;
    ChainRouteOk(local.canHead, Elements(ws), local.end + 1, route, local.nLayers);
    ChainShape(local.canHead, Elements(ws), local.end + 1, local.nLayers - 1, route);
    var hops := HopsOf(route, local.nLayers);
    forall i | 0 <= i < |hops| ensures exists w :: w in ws && Matches(hops[i], w) {
      assert route[i] in ws && Matches(hops[i], route[i]);
    }
  }

  /** A registration or a departure, by a thread other than the session's. */
  datatype Event = Joins(w: Worker) | Leaves(id: nat)

  /** A step of the coordinator: an event of another thread, or one lock section of the session's thread together
      with the writes to session-private fields that follow it. */
  datatype Step = Other(event: Event) | Check | Forget | Free | Plan | Mark | Fail

  /** The methods up to MarkFailed are single lock sections or touch only fields of the session's thread.  EnsureRoute,
      Rebuild and Run put them together, with events of other threads in between.  The ghost fields count registry
      changes without wrapping, and say when and over which registry the present plan was built. */
  class Coordinator {
    const local: Local
    var workers: seq<Worker>
    var generation: u64
    var shuttingDown: bool
    var plan: seq<Hop>
    var blob: seq<u8>
    var planReady: bool
    var planGeneration: u64
    ghost var changes: nat
    ghost var planned: bool
    ghost var plannedAt: nat
    ghost var plannedWorkers: seq<Worker>

    ghost predicate Valid()
      reads this
    {
      && local.Ok() && RegistryOk(workers, local.nLayers)
      && generation == changes % U64_LIMIT && blob == Blob(plan)
      && (planReady || planned ==> plannedAt <= changes && planGeneration == plannedAt % U64_LIMIT)
      && (planReady && plannedAt == changes ==> Fresh(local, plan, workers))
      && (planned ==> Fresh(local, plan, plannedWorkers))
      && (planned && plannedAt == changes ==> plannedWorkers == workers)
    }

    /** Between two operations of the session: a ready plan has not been freed. */
    ghost predicate Settled()
      reads this
    {
      planReady ==> planned
    }

    /** The plan may be replaced: it is not in use as a fresh one, or there is nothing to free. */
    ghost predicate MayFree()
      reads this
    {
      planReady && plannedAt == changes ==> plan == []
    }

    constructor (local: Local)
      requires local.Ok()
      ensures Valid() && Settled() && MayFree() && this.local == local
      ensures workers == [] && changes == 0 && !planReady && !planned && !shuttingDown
    {
      this.local, workers, generation, shuttingDown := local, [], 0, false;
      plan, blob, planReady, planGeneration := [], [], false, 0;
      changes, planned, plannedAt, plannedWorkers := 0, false, 0, [];
    }

    /** The cached plan is never stale: when the session finds its generation unchanged, every hop is registered and
        the hops cover the remaining layers.  The counter has 64 bits, hence the bound. */
    lemma {:induction false} CachedPlanIsFresh()
      requires Valid() && planReady
      ensures planGeneration == generation <==> (changes - plannedAt) % U64_LIMIT == 0
      ensures planGeneration == generation && changes - plannedAt < U64_LIMIT ==> Fresh(local, plan, workers)
    {
      hide RegistryOk, Fresh;
      SameGeneration(plannedAt, changes);
    }

    method AddWorker(w: Worker)
      requires Valid() && Admitted(w, local.nLayers)
      requires forall v :: v in workers ==> v.id != w.id
      modifies this`workers, this`generation, this`changes
      ensures Valid()
      ensures shuttingDown ==> workers == old(workers) && changes == old(changes)
      ensures !shuttingDown ==>
        workers == [w] + WithoutKey(old(workers), KeyOf(w)) && changes == old(changes) + 1
      // In fields: the new worker is there, and of the old ones those that differ from it in host, range or output.
      ensures !shuttingDown ==> w in workers
      ensures !shuttingDown ==> forall v :: v != w && v in old(workers) ==> (v in workers <==>
        (v.host != w.host || v.start != w.start || v.end != w.end || v.hasOutput != w.hasOutput))
      ensures forall v :: v in workers && v != w ==> v in old(workers)
    {
      hide Fresh, Admitted, RegistryOk, Blob, WithoutKey;
      if shuttingDown { return; }
      var kept := DropStale(workers, KeyOf(w));
      WithoutKeyOk(workers, KeyOf(w), local.nLayers);
      WithoutKeyMembers(workers, KeyOf(w));
      PrependOk(w, kept, local.nLayers);
      workers := [w] + kept;
      generation := (generation + 1) % U64_LIMIT;
      changes := changes + 1;
    }

    method RemoveWorker(id: nat)
      requires Valid()
      modifies this`workers, this`generation, this`changes
      ensures Valid()
      ensures forall w :: w in workers <==> w in old(workers) && w.id != id
      ensures changes == old(changes) + if workers == old(workers) then 0 else 1
    {
      hide Fresh, Admitted, WithoutAt, Blob;
      for i := 0 to |workers|
        invariant workers == old(workers) && generation == old(generation) && changes == old(changes)
        invariant forall k :: 0 <= k < i ==> workers[k].id != id
      {
        if workers[i].id == id {
          WithoutAtOk(workers, i, local.nLayers);
          workers := WithoutAt(workers, i);
          generation := (generation + 1) % U64_LIMIT;
          changes := changes + 1;
          return;
        }
      }
    }

    /** Any number of registrations and departures by other threads.  A connection that registers is a new one. */
    method Others(events: seq<Event>)
      requires Valid()
      modifies this`workers, this`generation, this`changes
      ensures Valid() && changes >= old(changes)
      ensures changes == old(changes) ==> workers == old(workers)
      ensures old(MayFree()) ==> MayFree()
      ensures forall w :: w in workers ==> w in old(workers) || Joins(w) in events
    {
      hide Fresh, Admitted, RegistryOk, Blob;
      for i := 0 to |events|
        invariant Valid() && changes >= old(changes)
        invariant changes == old(changes) ==> workers == old(workers)
        invariant forall w :: w in workers ==> w in old(workers) || Joins(w) in events[..i]
      {
        Happens(events[i]);
        assert events[..i + 1] == events[..i] + [events[i]];
      }
      assert events[..|events|] == events;
    }

    method Happens(event: Event)
      requires Valid()
      modifies this`workers, this`generation, this`changes
      ensures Valid() && changes >= old(changes)
      ensures changes == old(changes) ==> workers == old(workers)
      ensures forall w :: w in workers ==> w in old(workers) || event == Joins(w)
    {
      hide Fresh, RegistryOk, Blob;
      match event
      case Joins(w) =>
        if Admitted(w, local.nLayers) && forall v :: v in workers ==> v.id != w.id {
          hide Admitted, WithoutKey;
          WithoutKeyMembers(workers, KeyOf(w));
          AddWorker(w);
        }
      case Leaves(id) =>
        RemoveWorker(id);
    }

    /** Drops, for each hop of the failed plan, the first worker that matches it. */
    method ForgetRoute()
      requires Valid()
      modifies this`workers, this`generation, this`changes
      ensures Valid() && MayFree()
      ensures forall w :: w in workers <==> w in old(workers) && forall i :: 0 <= i < |plan| ==> !Matches(plan[i], w)
      ensures changes == old(changes) + if workers == old(workers) then 0 else 1
    {
      hide Fresh, Matches, RegistryOk, Forgotten, WithoutHop, NoMatch, Blob;
      var removed := false;
      assert Forgotten(workers, plan, 0) == workers by { ForgetNone(workers, plan); }
      for i := 0 to |plan|
        invariant generation == old(generation) && changes == old(changes)
        invariant workers == Forgotten(old(workers), plan, i)
        invariant removed <==> workers != old(workers)
        invariant |workers| <= |old(workers)| && (removed ==> |workers| < |old(workers)|)
      {
        var found;
        ForgetOne(old(workers), plan, i);
        found, workers := DropMatch(workers, plan[i]);
        removed := removed || found;
      }
      ForgottenOk(old(workers), plan, |plan|, local.nLayers);
      if removed {
        generation := (generation + 1) % U64_LIMIT;
        changes := changes + 1;
      }
      if planReady && plannedAt == changes {
        FreshAndUnmatched(local, plan, workers);
      }
    }

    /** The session's test of its cached plan. */
    method CheckRoute() returns (hit: bool)
      requires Valid()
      ensures hit == (planReady && planGeneration == generation)
      ensures !hit ==> MayFree()
    {
      return planReady && planGeneration == generation;
    }

    /** Frees the plan of the session. */
    method FreePlan()
      requires Valid() && MayFree()
      modifies this`plan, this`blob, this`planned
      ensures Valid() && MayFree() && plan == [] && !planned
    {
      hide Fresh, RegistryOk;
      plan, blob, planned := [], [], false;
    }

    /** Sorts the workers and searches: a route over the registry for the layers after the coordinator's own. */
    method SearchRoute() returns (found: bool, route: seq<Worker>, missing: nat)
      requires Valid() && local.start == 0 && !local.Whole()
      ensures found <==> HasChain(local.canHead, Elements(workers), local.end + 1, local.nLayers - 1)
      ensures !found ==> Furthest(local.canHead, Elements(workers), local.end + 1, local.nLayers - 1, missing)
      ensures found ==>
        && Chain(local.canHead, Elements(workers), local.end + 1, local.nLayers - 1, route)
        && (forall i :: 0 <= i < |route| ==> Admitted(route[i], local.nLayers))
        && Fresh(local, HopsOf(route, local.nLayers), workers)
        && PlanOfRoute(local, workers, HopsOf(route, local.nLayers)) && HopsOf(route, local.nLayers) != []
    {
      hide Chain, Fresh, Admitted, Elements, SortedByStart, HasChain, Furthest, RouteOrder, PlanOfRoute, IsRoute, FurthestNeeded;
      var sorted := RouteOrder(workers);
      RouteOrderOk(workers);
      AdmittedRanges(workers, sorted, local.nLayers);
      found, route, missing := FindRoute(local.canHead, sorted, local.end + 1, local.nLayers - 1);
      if found {
        RouteIsFresh(local, workers, route);
        PlanIsOfRoute(local, workers, route);
      }
    }

    /** Plans a route over the current registry and records the generation it was planned at. */
    method BuildRoutePlan() returns (r: PlanOutcome)
      requires Valid() && MayFree()
      modifies this`plan, this`blob, this`planGeneration, this`planned, this`plannedAt, this`plannedWorkers
      ensures Valid() && planned == r.Ready?
      ensures r.Ready? ==>
        && plannedAt == changes && planGeneration == generation && plannedWorkers == workers
        && Fresh(local, plan, workers)
      ensures r.NotFromLayerZero? <==> local.start != 0
      ensures r.Incomplete? <==>
        && local.start == 0 && !local.Whole()
        && !HasChain(local.canHead, Elements(workers), local.end + 1, local.nLayers - 1)
      ensures r.Incomplete? ==>
        Furthest(local.canHead, Elements(workers), local.end + 1, local.nLayers - 1, r.missing)
      // In fields: a coordinator that has all layers and the head needs no hops; any other plan is that of a route.
      ensures local.start == 0 && local.end == local.nLayers - 1 && (local.hasOutput || local.canHead) ==>
        r.Ready? && plan == []
      ensures r.Ready? && plan == [] ==> local.end == local.nLayers - 1 && (local.hasOutput || local.canHead)
      ensures r.Ready? && plan != [] ==> PlanOfRoute(local, workers, plan)
      ensures r.TooLarge? ==> LongRoute(local, Elements(workers))
      ensures !r.Ready? ==> MayFree() && plan == []
    {
      hide RegistryOk, Chain, Fresh, Admitted, Elements, SortedByStart, HasChain, Furthest, RouteOrder, Records, LongRoute;
      hide PlanOfRoute, IsRoute, FurthestNeeded, HopsOf, HopOf, Be32, HopBytes, Matches, Contiguous;
      plan, blob, planned := [], [], false;
      if local.start != 0 { return NotFromLayerZero; }
      if local.Whole() {
        assert Fresh(local, [], workers) by { NoHopsNeeded(local, workers); }
        planGeneration, planned, plannedAt, plannedWorkers := generation, true, changes, workers;
        return Ready;
      }
      var found, route, missing := SearchRoute();
      if !found { return Incomplete(missing); }
      var payload := BuildBlob(route, local.nLayers);
      if payload.None? {
        RouteIsLong(local, Elements(workers), route);
        return TooLarge;
      }
      plan, blob := HopsOf(route, local.nLayers), payload.value;
      planGeneration, planned, plannedAt, plannedWorkers := generation, true, changes, workers;
      return Ready;
    }

    method MarkReady()
      requires Valid() && planned
      modifies this`planReady
      ensures Valid() && Settled() && planReady
    {
      hide RegistryOk, Fresh;
      planReady := true;
    }

    method MarkFailed()
      requires Valid()
      modifies this`planReady, this`planGeneration, this`planned
      ensures Valid() && Settled() && MayFree() && !planReady && !planned
    {
      hide RegistryOk, Fresh;
      planReady, planGeneration, planned := false, 0, false;
    }

    /** What a session does before it uses its plan.  first happens between the test and the planning, second between
        the planning and the mark.  A session that goes on has a plan that was fresh when it was built: during this
        call, or at a generation that still was the registry's when the call began. */
    method EnsureRoute(first: seq<Event>, second: seq<Event>) returns (ok: bool)
      requires Valid() && Settled()
      modifies this`workers, this`generation, this`changes
      modifies this`plan, this`blob, this`planReady, this`planGeneration, this`planned, this`plannedAt, this`plannedWorkers
      ensures Valid() && Settled() && ok == planReady && changes >= old(changes)
      ensures ok ==> Fresh(local, plan, plannedWorkers) && plannedAt <= changes
      ensures ok ==> old(changes) <= plannedAt || (old(changes) - plannedAt) % U64_LIMIT == 0
    {
      hide RegistryOk, Fresh, Blob, LongRoute, HasChain, Furthest, Elements;
      var hit := CheckRoute();
      if hit { CachedPlanIsFresh(); }
      Others(first);
      if hit { return true; }
      FreePlan();
      var r := BuildRoutePlan();
      Others(second);
      if r.Ready? { MarkReady(); } else { MarkFailed(); }
      return r.Ready?;
    }

    /** Recovery after a failed span: forget the failed route, plan again and replay.  first happens between forgetting
        and planning, second during the replay, whose outcome is prefillOk.  A worker of the failed route is in the new
        plan only if it has registered anew since it was forgotten. */
    method Rebuild(forgetRoute: bool, first: seq<Event>, second: seq<Event>, prefillOk: bool) returns (ok: bool)
      requires Valid() && planReady && planned
      modifies this`workers, this`generation, this`changes
      modifies this`plan, this`blob, this`planReady, this`planGeneration, this`planned, this`plannedAt, this`plannedWorkers
      ensures Valid() && Settled() && ok == planReady && changes >= old(changes)
      ensures ok ==> Fresh(local, plan, plannedWorkers) && plannedAt <= changes
      ensures ok && forgetRoute ==> old(changes) <= plannedAt
      ensures ok && forgetRoute ==> Renewed(old(plan), plannedWorkers, first)
      ensures ok && !forgetRoute && old(plan) != [] ==> plan == old(plan) && plannedAt == old(plannedAt)
    {
      hide RegistryOk, Fresh, Matches, Renewed, Blob, LongRoute, HasChain, Furthest, Elements;
      var r := Ready;
      if forgetRoute {
        ForgetRoute();
        ghost var kept := workers;
        Others(first);
        RenewedAfter(plan, kept, workers, first);
        FreePlan();
        r := BuildRoutePlan();
      } else if plan == [] {
        r := BuildRoutePlan();
      }
      Others(second);
      ok := r.Ready? && prefillOk;
      if ok { MarkReady(); } else { MarkFailed(); }
    }

    /** Every interleaving: the session's thread may take its lock sections in any order its guards allow, with events
        of other threads anywhere in between.  Whatever state this reaches, a ready plan of the registry's generation is
        fresh, unless 2^64 or more changes lie in between. */
    method Run(steps: seq<Step>)
      requires Valid() && MayFree() && !planned
      modifies this
      ensures Valid()
      ensures planReady && planGeneration == generation && changes - plannedAt < U64_LIMIT ==> Fresh(local, plan, workers)
    {
      hide RegistryOk, Fresh;
      var mayFree, built := true, false;
      for i := 0 to |steps|
        invariant Valid() && (mayFree ==> MayFree()) && (built ==> planned)
      {
        mayFree, built := Take(steps[i], mayFree, built);
      }
      if planReady { CachedPlanIsFresh(); }
    }

    /** mayFree: the session's test failed or it forgot its route, and has not planned since.  built: it planned. */
    method Take(step: Step, mayFree: bool, built: bool) returns (mayFree': bool, built': bool)
      requires Valid() && (mayFree ==> MayFree()) && (built ==> planned)
      modifies this
      ensures Valid() && (mayFree' ==> MayFree()) && (built' ==> planned)
    {
      hide RegistryOk, Fresh, Blob, LongRoute, HasChain, Furthest, Elements;
      mayFree', built' := mayFree, built;
      match step
      case Other(event) => Others([event]);
      case Check =>
        var hit := CheckRoute();
        mayFree' := !hit;
      case Forget =>
        ForgetRoute();
        mayFree' := true;
      case Free =>
        if mayFree { FreePlan(); built' := false; }
      case Plan =>
        if mayFree {
          var r := BuildRoutePlan();
          mayFree', built' := !r.Ready?, r.Ready?;
        }
      case Mark =>
        if built { MarkReady(); mayFree' := false; }
      case Fail =>
        MarkFailed();
        built' := false;
    }
  }

  /** Every worker that a hop of the failed route matches has registered since. */
  ghost predicate Renewed(failed: seq<Hop>, ws: seq<Worker>, events: seq<Event>) {
    forall w, i :: w in ws && 0 <= i < |failed| && Matches(failed[i], w) ==> Joins(w) in events
  }

  lemma {:induction false} RenewedAfter(failed: seq<Hop>, kept: seq<Worker>, ws: seq<Worker>, events: seq<Event>)
    requires forall w :: w in kept ==> forall i :: 0 <= i < |failed| ==> !Matches(failed[i], w)
    requires forall w :: w in ws ==> w in kept || Joins(w) in events
    ensures Renewed(failed, ws, events)
  {
    hide Matches;
  }

  /** Some route over the workers does not fit the 32-bit size of a blob. */
  ghost predicate LongRoute(local: Local, ws: set<Worker>)
    requires local.Ok()
  {
    exists route :: Chain(local.canHead, ws, local.end + 1, local.nLayers - 1, route) && BlobTooLong(route, local.nLayers)
  }

  ghost predicate BlobTooLong(route: seq<Worker>, nLayers: u32) {
    && (forall i :: 0 <= i < |route| ==> Admitted(route[i], nLayers))
    && |Blob(HopsOf(route, nLayers))| >= U32_LIMIT
  }

  lemma {:induction false} RouteIsLong(local: Local, ws: set<Worker>, route: seq<Worker>)
    requires local.Ok() && Chain(local.canHead, ws, local.end + 1, local.nLayers - 1, route)
    requires BlobTooLong(route, local.nLayers)
    ensures LongRoute(local, ws)
  {
  }

  // ---------- Where the 64-bit generation stops telling ----------

  /** The bound in CachedPlanIsFresh is needed.  A worker is planned and leaves, then another registers 2^64 - 1 times:
      the session finds its plan ready at the registry's generation, and the plan is not fresh. */
  method StaleAfterWrap(local: Local, w: Worker, other: Worker) returns (c: Coordinator)
    requires local.Ok() && local.start == 0 && !local.Whole()
    requires Admitted(w, local.nLayers) && w.start == local.end + 1 && w.end == local.nLayers - 1
    requires CandidateOk(local.canHead, w, local.nLayers - 1)
    requires Admitted(other, local.nLayers) && KeyOf(other) != KeyOf(w)
    ensures c.Valid() && c.local == local && c.planReady && c.planGeneration == c.generation
    ensures c.changes - c.plannedAt == U64_LIMIT && !Fresh(local, c.plan, c.workers)
  {
    hide Fresh, RegistryOk, Admitted, CandidateOk, WithoutKey, Blob, HasChain, LongRoute, Elements, Furthest, Matches;
    c := new Coordinator(local);
    Replaces([], w);
    c.AddWorker(w);
    assert c.workers == [w];
    OneHop(local, w);
    var r := c.BuildRoutePlan();
    c.MarkReady();
    PlannedHop(local, c.plan, w);
    c.RemoveWorker(w.id);
    NothingLeft(w, c.workers);
    for n := 0 to U64_LIMIT - 1
      invariant c.Valid() && c.local == local && !c.shuttingDown && fresh(c)
      invariant c.planReady && c.planned && c.plannedAt == 1 && c.changes == 2 + n
      invariant c.plan != [] && Matches(c.plan[0], w)
      invariant c.workers == if n == 0 then [] else [other.(id := other.id + n)]
    {
      var again := other.(id := other.id + n + 1);
      SameAdmission(other, again, local.nLayers);
      Replaces(c.workers, again);
      c.AddWorker(again);
    }
    SameGeneration(c.plannedAt, c.changes);
    NotRegistered(local, c.plan, w, other, c.workers);
  }

  lemma {:induction false} SameAdmission(w: Worker, v: Worker, nLayers: u32)
    requires Admitted(w, nLayers) && v == w.(id := v.id)
    ensures Admitted(v, nLayers) && KeyOf(v) == KeyOf(w)
  {
  }

  lemma {:induction false} Replaces(ws: seq<Worker>, w: Worker)
    requires ws == [] || (|ws| == 1 && KeyOf(ws[0]) == KeyOf(w))
    ensures WithoutKey(ws, KeyOf(w)) == []
  {
    assert |ws| == 1 ==> ws[..0] == [];
  }

  lemma {:induction false} NothingLeft(w: Worker, ws: seq<Worker>)
    requires forall v :: v in ws <==> v in [w] && v.id != w.id
    ensures ws == []
  {
    SomeElement(ws);
  }

  lemma {:induction false} SomeElement(ws: seq<Worker>)
    ensures ws != [] ==> exists v :: v in ws
  {
    if ws != [] { assert ws[0] in ws; }
  }

  /** A single worker for all remaining layers is a chain, and its blob is short. */
  lemma {:induction false} OneHop(local: Local, w: Worker)
    requires local.Ok() && Admitted(w, local.nLayers) && w.start == local.end + 1 && w.end == local.nLayers - 1
    requires CandidateOk(local.canHead, w, local.nLayers - 1)
    ensures HasChain(local.canHead, Elements([w]), local.end + 1, local.nLayers - 1)
    ensures !LongRoute(local, Elements([w]))
  {
    var ws, next, last := Elements([w]), local.end + 1, local.nLayers - 1;
    assert w in ws;
    hide Chain, Elements, Admitted, HasChain, CandidateOk, BlobTooLong;
    ChainOne(local.canHead, ws, next, last, w);
    forall route | Chain(local.canHead, ws, next, last, route) ensures !BlobTooLong(route, local.nLayers) {
      OnlyRoute(local.canHead, w, next, last, route);
      ShortBlob(w, local.nLayers);
    }
  }

  lemma {:induction false} OnlyRoute(localHead: bool, w: Worker, next: nat, last: nat, route: seq<Worker>)
    requires w.end >= last && Chain(localHead, Elements([w]), next, last, route)
    ensures route == [w]
  {
    hide CandidateOk;
    assert route[0] in [w];
  }

  lemma {:induction false} ShortBlob(w: Worker, nLayers: u32)
    requires Admitted(w, nLayers)
    ensures !BlobTooLong([w], nLayers)
  {
    var hops := HopsOf([w], nLayers);
    RecordsLast(hops);
    RecordsLast([]);
    assert hops[..0] == [];
  }

  lemma {:induction false} PlannedHop(local: Local, plan: seq<Hop>, w: Worker)
    requires Fresh(local, plan, [w]) && !local.Whole()
    ensures plan != [] && Matches(plan[0], w)
  {
    hide Matches, RouteOk;
    assert exists v :: v in [w] && Matches(plan[0], v);
  }

  lemma {:induction false} NotRegistered(local: Local, plan: seq<Hop>, w: Worker, other: Worker, ws: seq<Worker>)
    requires plan != [] && Matches(plan[0], w) && KeyOf(other) != KeyOf(w)
    requires forall v :: v in ws ==> KeyOf(v) == KeyOf(other)
    ensures !Fresh(local, plan, ws)
  {
    hide RouteOk;
    assert forall v :: v in ws ==> !Matches(plan[0], v);
  }

  /** Two counts of changes give the same 64-bit generation exactly when a multiple of 2^64 lies between them. */
  lemma {:induction false} SameGeneration(a: nat, b: nat)
    requires a <= b
    ensures a % U64_LIMIT == b % U64_LIMIT <==> (b - a) % U64_LIMIT == 0
  {
  }

  lemma {:induction false} NoHopsNeeded(local: Local, ws: seq<Worker>)
    requires local.Ok() && local.start == 0 && local.Whole()
    ensures Fresh(local, [], ws)
  {
  }

  lemma {:induction false} AdmittedRanges(ws: seq<Worker>, sorted: seq<Worker>, nLayers: u32)
    requires RegistryOk(ws, nLayers) && Elements(sorted) == Elements(ws)
    ensures AllAdmitted(ws, nLayers)
    ensures forall w :: w in sorted ==> w.start <= w.end
  {
    forall w | w in sorted ensures w.start <= w.end {
      assert w in Elements(sorted);
      assert w in Elements(ws);
    }
  }

  /** A fresh plan none of whose hops is registered has no hops. */
  lemma {:induction false} FreshAndUnmatched(local: Local, plan: seq<Hop>, ws: seq<Worker>)
    requires Fresh(local, plan, ws)
    requires forall w :: w in ws ==> forall i :: 0 <= i < |plan| ==> !Matches(plan[i], w)
    ensures plan == []
  {
    hide Covers, Matches;
    FirstHopRegistered(plan, ws);
  }

  lemma {:induction false} FirstHopRegistered(plan: seq<Hop>, ws: seq<Worker>)
    requires Registered(plan, ws)
    ensures plan != [] ==> exists i, w :: 0 <= i < |plan| && w in ws && Matches(plan[i], w)
  {
    if plan != [] {
      var h := plan[0];
      var w :| w in ws && Matches(h, w);
    }
  }

  lemma {:induction false} ForgetNone(ws: seq<Worker>, hops: seq<Hop>)
    ensures Forgotten(ws, hops, 0) == ws
  {
  }

  lemma {:induction false} ForgetOne(ws: seq<Worker>, hops: seq<Hop>, k: nat)
    requires k < |hops|
    ensures Forgotten(ws, hops, k + 1) == WithoutHop(Forgotten(ws, hops, k), hops[k])
  {
  }

  /** Unlinks every entry with the key of a worker that registers again. */
  method DropStale(ws: seq<Worker>, key: Key) returns (kept: seq<Worker>)
    ensures kept == WithoutKey(ws, key)
  {
    kept := [];
    for i := 0 to |ws|
      invariant kept == WithoutKey(ws[..i], key)
    {
      assert ws[..i + 1][..i] == ws[..i];
      if KeyOf(ws[i]) != key {
        kept := kept + [ws[i]];
      }
    }
    assert ws[..|ws|] == ws;
  }

  /** Unlinks the first worker that matches the hop. */
  method DropMatch(ws: seq<Worker>, h: Hop) returns (found: bool, rest: seq<Worker>)
    ensures rest == WithoutHop(ws, h)
    ensures found <==> !NoMatch(ws, h)
    ensures |rest| == |ws| - (if found then 1 else 0) && (!found ==> rest == ws)
  {
    hide Matches;
    for i := 0 to |ws|
      invariant WithoutHop(ws, h) == ws[..i] + WithoutHop(ws[i..], h)
      invariant forall k :: 0 <= k < i ==> !Matches(h, ws[k])
    {
      assert ws[i..][1..] == ws[i + 1..];
      if Matches(h, ws[i]) {
        assert ws[i] in ws;
        return true, ws[..i] + ws[i + 1..];
      }
      assert ws[..i] + ([ws[i]] + WithoutHop(ws[i + 1..], h)) == ws[..i + 1] + WithoutHop(ws[i + 1..], h);
    }
    return false, ws;
  }
}
