/**
  The request metrics: a registry whose denormalised counters all describe one log of
  finished requests, under any interleaving of the locked calls and of whole requests.
 */
module Metrics {

  import opened Options

  datatype Route = Route(verb: string, path: string)
  datatype RequestKey = RequestKey(route: Route, status: int)
  datatype BucketKey = BucketKey(route: Route, boundary: real)

  /** One call of `request_finished`. */
  datatype Observation = Observation(route: Route, status: int, duration: real)

  const BUCKETS: seq<real> := [0.05, 0.1, 0.25, 0.5, 1.0, 2.5, 5.0]

  // ---------------------------------------------------------------- counting in a log

  function CountRoute(log: seq<Observation>, r: Route): nat {
    if log == [] then 0 else
      CountRoute(log[..|log| - 1], r) + if log[|log| - 1].route == r then 1 else 0
  }

  function CountStatus(log: seq<Observation>, k: RequestKey): nat {
    if log == [] then 0 else
      CountStatus(log[..|log| - 1], k) +
      if log[|log| - 1].route == k.route && log[|log| - 1].status == k.status then 1 else 0
  }

  /** Finished requests of the route that took no longer than the boundary. */
  function CountWithin(log: seq<Observation>, k: BucketKey): nat {
    if log == [] then 0 else
      CountWithin(log[..|log| - 1], k) +
      if log[|log| - 1].route == k.route && log[|log| - 1].duration <= k.boundary then 1 else 0
  }

  function SumDurations(log: seq<Observation>, r: Route): real {
    if log == [] then 0.0 else
      SumDurations(log[..|log| - 1], r) + if log[|log| - 1].route == r then log[|log| - 1].duration else 0.0
  }

  lemma LogGrows(log: seq<Observation>, o: Observation)
    ensures forall r :: CountRoute(log + [o], r) == CountRoute(log, r) + if o.route == r then 1 else 0
    ensures forall k :: CountStatus(log + [o], k) ==
              CountStatus(log, k) + if k == RequestKey(o.route, o.status) then 1 else 0
    ensures forall k :: CountWithin(log + [o], k) ==
              CountWithin(log, k) + if k.route == o.route && o.duration <= k.boundary then 1 else 0
    ensures forall r :: SumDurations(log + [o], r) == SumDurations(log, r) + if o.route == r then o.duration else 0.0
  {
    assert (log + [o])[..|log|] == log;
  }

  /** The places in the log with a property. */
  ghost function Places(log: seq<Observation>, p: Observation -> bool): set<nat> {
    set i: nat | i < |log| && p(log[i])
  }

  lemma PlacesGrow(log: seq<Observation>, p: Observation -> bool)
    requires log != []
    ensures |Places(log, p)| == |Places(log[..|log| - 1], p)| + if p(log[|log| - 1]) then 1 else 0
  {
    var front, n := log[..|log| - 1], |log| - 1;
    assert Places(log, p) == Places(front, p) + (if p(log[n]) then {n} else {});
    assert n !in Places(front, p);
  }

  lemma {:induction false} CountIsPlaces(log: seq<Observation>, p: Observation -> bool, count: seq<Observation> -> nat)
    requires count([]) == 0
    requires forall l: seq<Observation> :: l != [] ==>
               count(l) == count(l[..|l| - 1]) + if p(l[|l| - 1]) then 1 else 0
    ensures count(log) == |Places(log, p)|
  {
    if log == [] {
      assert Places(log, p) == {};
    } else {
      CountIsPlaces(log[..|log| - 1], p, count);
      PlacesGrow(log, p);
    }
  }

  /** What the three counters count: finished requests of a route, those with a status, and those
      that took no longer than a boundary. */
  lemma CountMeaning(log: seq<Observation>, r: Route, status: int, boundary: real)
    ensures CountRoute(log, r) == |set i: nat | i < |log| && log[i].route == r|
    ensures CountStatus(log, RequestKey(r, status)) ==
            |set i: nat | i < |log| && log[i].route == r && log[i].status == status|
    ensures CountWithin(log, BucketKey(r, boundary)) ==
            |set i: nat | i < |log| && log[i].route == r && log[i].duration <= boundary|
  {
    var onRoute := (o: Observation) => o.route == r;
    var withStatus := (o: Observation) => o.route == r && o.status == status;
    var within := (o: Observation) => o.route == r && o.duration <= boundary;
    CountIsPlaces(log, onRoute, l => CountRoute(l, r));
    CountIsPlaces(log, withStatus, l => CountStatus(l, RequestKey(r, status)));
    CountIsPlaces(log, within, l => CountWithin(l, BucketKey(r, boundary)));
    assert Places(log, onRoute) == set i: nat | i < |log| && log[i].route == r;
    assert Places(log, withStatus) == set i: nat | i < |log| && log[i].route == r && log[i].status == status;
    assert Places(log, within) == set i: nat | i < |log| && log[i].route == r && log[i].duration <= boundary;
  }

  /** The sum adds up the durations of a route, wherever the log is cut. */
  lemma {:induction false} SumMeaning(a: seq<Observation>, b: seq<Observation>, o: Observation, r: Route)
    ensures SumDurations([], r) == 0.0
    ensures SumDurations([o], r) == if o.route == r then o.duration else 0.0
    ensures SumDurations(a + b, r) == SumDurations(a, r) + SumDurations(b, r)
  {
    assert [o][..0] == [];
    if b == [] {
      assert a + b == a;
    } else {
      SumMeaning(a, b[..|b| - 1], o, r);
      assert (a + b)[..|a + b| - 1] == a + b[..|b| - 1];
    }
  }

  /** Cumulative buckets: they grow with the boundary and never pass the +Inf count. */
  lemma {:induction false} BucketsAreCumulative(log: seq<Observation>, r: Route, a: real, b: real)
    requires a <= b
    ensures CountWithin(log, BucketKey(r, a)) <= CountWithin(log, BucketKey(r, b)) <= CountRoute(log, r)
  {
    if log != [] { BucketsAreCumulative(log[..|log| - 1], r, a, b); }
  }

  /** The per-status counters of one route, added up. */
  function SumStatuses(log: seq<Observation>, r: Route, statuses: seq<int>): nat {
    if statuses == [] then 0 else CountStatus(log, RequestKey(r, statuses[0])) + SumStatuses(log, r, statuses[1..])
  }

  lemma {:induction false} NoStatuses(r: Route, statuses: seq<int>)
    ensures SumStatuses([], r, statuses) == 0
  {
    if statuses != [] { NoStatuses(r, statuses[1..]); }
  }

  lemma {:induction false} OneStatusGrows(log: seq<Observation>, o: Observation, statuses: seq<int>)
    requires forall i, j :: 0 <= i < j < |statuses| ==> statuses[i] != statuses[j]
    ensures SumStatuses(log + [o], o.route, statuses) ==
            SumStatuses(log, o.route, statuses) + if o.status in statuses then 1 else 0
    ensures forall r :: r != o.route ==> SumStatuses(log + [o], r, statuses) == SumStatuses(log, r, statuses)
  {
    LogGrows(log, o);
    if statuses != [] {
      OneStatusGrows(log, o, statuses[1..]);
      assert statuses == [statuses[0]] + statuses[1..];
    }
  }

  /** The request count of a route is the sum of its status counters. */
  lemma {:induction false} StatusesAddUp(log: seq<Observation>, r: Route, statuses: seq<int>)
    requires forall i, j :: 0 <= i < j < |statuses| ==> statuses[i] != statuses[j]
    requires forall i :: 0 <= i < |log| && log[i].route == r ==> log[i].status in statuses
    ensures SumStatuses(log, r, statuses) == CountRoute(log, r)
  {
    if log == [] {
      NoStatuses(r, statuses);
    } else {
      var front, o := log[..|log| - 1], log[|log| - 1];
      StatusesAddUp(front, r, statuses);
      assert front + [o] == log;
      OneStatusGrows(front, o, statuses);
    }
  }

  // ---------------------------------------------------------------- the registry

  function GetReal<K>(m: map<K, real>, k: K): real {
    if k in m then m[k] else 0.0
  }

  /** `max(0, n - 1)`. */
  function Lowered(n: nat): nat {
    if n == 0 then 0 else n - 1
  }

  /** What one locked snapshot of the registry holds. */
  datatype Snapshot = Snapshot(
    requests: map<RequestKey, nat>,
    durationSum: map<Route, real>,
    durationCount: map<Route, nat>,
    durationBuckets: map<BucketKey, nat>,
    inProgress: nat,
    websockets: nat,
    dashboardEvents: nat,
    transportReady: nat,
    alerts: map<string, nat>)

  /** All counters describe the same log. */
  ghost predicate Describes(s: Snapshot, log: seq<Observation>) {
    && (forall k :: Get(s.requests, k) == CountStatus(log, k)) && (forall k :: k in s.requests ==> s.requests[k] > 0)
    && (forall r :: Get(s.durationCount, r) == CountRoute(log, r))
    && (forall r :: r in s.durationCount ==> s.durationCount[r] > 0)
    && s.durationSum.Keys == s.durationCount.Keys
    && (forall r :: GetReal(s.durationSum, r) == SumDurations(log, r))
    && (forall k :: Get(s.durationBuckets, k) == if k.boundary in BUCKETS then CountWithin(log, k) else 0)
  }

  function SumRequests(s: Snapshot, r: Route, statuses: seq<int>): nat {
    if statuses == [] then 0 else Get(s.requests, RequestKey(r, statuses[0])) + SumRequests(s, r, statuses[1..])
  }

  lemma {:induction false} SameSum(s: Snapshot, log: seq<Observation>, r: Route, statuses: seq<int>)
    requires Describes(s, log)
    ensures SumRequests(s, r, statuses) == SumStatuses(log, r, statuses)
  {
    if statuses != [] { SameSum(s, log, r, statuses[1..]); }
  }

  lemma {:induction false} StatusIsCounted(log: seq<Observation>, i: nat)
    requires i < |log|
    ensures CountStatus(log, RequestKey(log[i].route, log[i].status)) > 0
  {
    if i < |log| - 1 { StatusIsCounted(log[..|log| - 1], i); }
  }

  /** In any snapshot the +Inf count of a route is the sum of its status counters, and its
      buckets grow with the boundary up to that count. */
  lemma SnapshotAddsUp(s: Snapshot, log: seq<Observation>, r: Route, statuses: seq<int>, i: nat, j: nat)
    requires Describes(s, log) && i <= j < |BUCKETS|
    requires forall m, n :: 0 <= m < n < |statuses| ==> statuses[m] != statuses[n]
    requires forall k :: k in s.requests && k.route == r ==> k.status in statuses
    ensures Get(s.durationCount, r) == SumRequests(s, r, statuses)
    ensures Get(s.durationBuckets, BucketKey(r, BUCKETS[i])) <= Get(s.durationBuckets, BucketKey(r, BUCKETS[j])) <=
            Get(s.durationCount, r)
  {
    forall n | 0 <= n < |log| && log[n].route == r ensures log[n].status in statuses {
      StatusIsCounted(log, n);
      assert RequestKey(r, log[n].status) in s.requests;
    }
    StatusesAddUp(log, r, statuses);
    SameSum(s, log, r, statuses);
    BoundariesAscend(i, j);
    BucketsAreCumulative(log, r, BUCKETS[i], BUCKETS[j]);
  }

  lemma BoundariesAscend(i: nat, j: nat)
    requires i <= j < |BUCKETS|
    ensures BUCKETS[i] <= BUCKETS[j]
  {}

  class MetricsRegistry {
    var requests: map<RequestKey, nat>
    var durationSum: map<Route, real>
    var durationCount: map<Route, nat>
    var durationBuckets: map<BucketKey, nat>
    var inProgress: nat
    var websockets: nat
    var dashboardEvents: nat
    var transportReady: nat
    var alerts: map<string, nat>
    ghost var log: seq<Observation>

    constructor()
      ensures Valid() && log == []
      ensures Snap() == Snapshot(map[], map[], map[], map[], 0, 0, 0, 1, map[])
    {
      requests, durationSum, durationCount, durationBuckets := map[], map[], map[], map[];
      inProgress, websockets, dashboardEvents, transportReady, alerts := 0, 0, 0, 1, map[];
      log := [];
    }

    /** What a render copies under the lock. */
    function Snap(): Snapshot
      reads this
    {
      Snapshot(requests, durationSum, durationCount, durationBuckets, inProgress, websockets, dashboardEvents,
               transportReady, alerts)
    }

    ghost predicate Valid()
      reads this
    {
      Describes(Snap(), log)
    }

    method RequestStarted()
      requires Valid()
      modifies this
      ensures Valid() && log == old(log)
      ensures Snap() == old(Snap()).(inProgress := old(inProgress) + 1)
    {
      inProgress := inProgress + 1;
    }

    method RequestFinished(verb: string, path: string, status: int, duration: real)
      requires Valid()
      modifies `inProgress, `requests, `durationSum, `durationCount, `durationBuckets, `log
      ensures Valid()
      ensures log == old(log) + [Observation(Route(verb, path), status, duration)]
      ensures inProgress == Lowered(old(inProgress))
    {
      var key := Route(verb, path);
      inProgress := if inProgress - 1 >= 0 then inProgress - 1 else 0;
      var request := RequestKey(key, status);
      requests := requests[request := Get(requests, request) + 1];
      durationSum := durationSum[key := GetReal(durationSum, key) + duration];
      durationCount := durationCount[key := Get(durationCount, key) + 1];
      CountBuckets(key, duration);
      log := log + [Observation(key, status, duration)];
      Finishing(old(Snap()), Snap(), old(log), Observation(key, status, duration));
    }

    /** The loop over the boundaries. */
    method CountBuckets(key: Route, duration: real)
      modifies this`durationBuckets
      ensures forall k :: Get(durationBuckets, k) == Get(old(durationBuckets), k) +
                if k.route == key && k.boundary in BUCKETS && duration <= k.boundary then 1 else 0
    {
      for i := 0 to |BUCKETS|
        invariant forall k :: Get(durationBuckets, k) == Get(old(durationBuckets), k) +
                    if k.route == key && k.boundary in BUCKETS[..i] && duration <= k.boundary then 1 else 0
      {
        var boundary := BUCKETS[i];
        assert boundary !in BUCKETS[..i];
        assert BUCKETS[..i + 1] == BUCKETS[..i] + [boundary];
        if duration <= boundary {
          var k := BucketKey(key, boundary);
          durationBuckets := durationBuckets[k := Get(durationBuckets, k) + 1];
        }
      }
      assert BUCKETS[..|BUCKETS|] == BUCKETS;
    }

    method WebsocketConnected()
      requires Valid()
      modifies this
      ensures Valid() && log == old(log) && Snap() == old(Snap()).(websockets := old(websockets) + 1)
    {
      websockets := websockets + 1;
    }

    method WebsocketDisconnected()
      requires Valid()
      modifies this
      ensures Valid() && log == old(log) && Snap() == old(Snap()).(websockets := Lowered(old(websockets)))
    {
      websockets := if websockets - 1 >= 0 then websockets - 1 else 0;
    }

    method DashboardEventPublished()
      requires Valid()
      modifies this
      ensures Valid() && log == old(log) && Snap() == old(Snap()).(dashboardEvents := old(dashboardEvents) + 1)
    {
      dashboardEvents := dashboardEvents + 1;
    }

    method SetDashboardTransportReady(ready: bool)
      requires Valid()
      modifies this
      ensures Valid() && log == old(log) && Snap() == old(Snap()).(transportReady := if ready then 1 else 0)
    {
      transportReady := if ready then 1 else 0;
    }

    method AlertmanagerEventReceived(status: string)
      requires Valid()
      modifies this
      ensures Valid() && log == old(log)
      ensures Snap() == old(Snap()).(alerts := old(alerts)[status := Get(old(alerts), status) + 1])
    {
      alerts := alerts[status := Get(alerts, status) + 1];
    }

    /** A schedule of concurrent requests, replayed call by call. */
    method Replay(events: seq<Event>)
      requires Valid() && log == [] && inProgress == 0
      modifies this
      ensures Valid() && log == Logged(events) && inProgress == Gauge(events)
    {
      for n := 0 to |events|
        invariant Valid() && log == Logged(events[..n]) && inProgress == Gauge(events[..n])
      {
        assert events[..n + 1][..n] == events[..n];
        match events[n] {
          case Begin(_) => RequestStarted();
          case End(_, verb, route, ended, duration) =>
            var path := if route == "" then "__unmatched__" else route;
            RequestFinished(verb, path, if ended.Returned? then ended.status else 500, duration);
        }
      }
      assert events[..|events|] == events;
    }
  }

  /** Every counter moves by exactly what the new observation is worth. */
  lemma Finishing(s: Snapshot, t: Snapshot, log: seq<Observation>, o: Observation)
    requires Describes(s, log)
    requires t.requests == s.requests[RequestKey(o.route, o.status) :=
               Get(s.requests, RequestKey(o.route, o.status)) + 1]
    requires t.durationSum == s.durationSum[o.route := GetReal(s.durationSum, o.route) + o.duration]
    requires t.durationCount == s.durationCount[o.route := Get(s.durationCount, o.route) + 1]
    requires forall k :: Get(t.durationBuckets, k) == Get(s.durationBuckets, k) +
               if k.route == o.route && k.boundary in BUCKETS && o.duration <= k.boundary then 1 else 0
    ensures Describes(t, log + [o])
  {
    LogGrows(log, o);
  }

  // ---------------------------------------------------------------- whole requests

  /** How the wrapped handler of a request ends. */
  datatype Ended = Returned(status: int) | Raised

  /** One concurrent request enters, or leaves through the `finally` block. */
  datatype Event = Begin(id: nat) | End(id: nat, verb: string, route: string, ended: Ended, duration: real)

  /** The observation `dispatch` makes: status 500 unless a response came, and a placeholder
      when no route (or an empty one) matched. */
  function Observed(e: Event): Observation
    requires e.End?
  {
    Observation(Route(e.verb, if e.route == "" then "__unmatched__" else e.route),
                if e.ended.Returned? then e.ended.status else 500, e.duration)
  }

  /** The gauge after a schedule, with its clamp at zero. */
  function Gauge(events: seq<Event>): nat {
    if events == [] then 0 else
      var g := Gauge(events[..|events| - 1]);
      if events[|events| - 1].Begin? then g + 1 else Lowered(g)
  }

  function Logged(events: seq<Event>): seq<Observation> {
    if events == [] then [] else
      var l := Logged(events[..|events| - 1]);
      if events[|events| - 1].Begin? then l else l + [Observed(events[|events| - 1])]
  }

  /** Requests that are between their start and their finish. */
  function Running(events: seq<Event>): set<nat> {
    if events == [] then {} else
      var r := Running(events[..|events| - 1]);
      if events[|events| - 1].Begin? then r + {events[|events| - 1].id} else r - {events[|events| - 1].id}
  }

  function Begun(events: seq<Event>): set<nat> {
    set e | e in events && e.Begin? :: e.id
  }

  function Finished(events: seq<Event>): set<nat> {
    set e | e in events && e.End? :: e.id
  }

  /** Every request runs `dispatch` once: it begins once, and ends at most once, after that. */
  ghost predicate Schedule(events: seq<Event>) {
    events == [] ||
    (Schedule(events[..|events| - 1]) &&
     match events[|events| - 1]
     case Begin(id) => id !in Begun(events[..|events| - 1])
     case End(id, _, _, _, _) => id in Running(events[..|events| - 1]))
  }

  lemma LastEvent(events: seq<Event>)
    requires events != []
    ensures var front, e := events[..|events| - 1], events[|events| - 1];
            Begun(events) == Begun(front) + (if e.Begin? then {e.id} else {}) &&
            Finished(events) == Finished(front) + if e.End? then {e.id} else {}
  {
    var front, e := events[..|events| - 1], events[|events| - 1];
    assert forall x :: x in events <==> x in front || x == e by { assert events == front + [e]; }
  }

  /** The log has one observation for each finished request. */
  lemma {:induction false} RunningHaveBegun(events: seq<Event>)
    requires Schedule(events)
    ensures Running(events) == Begun(events) - Finished(events) && Finished(events) <= Begun(events)
    ensures |Logged(events)| == |Finished(events)|
  {
    if events != [] {
      var front, e := events[..|events| - 1], events[|events| - 1];
      RunningHaveBegun(front);
      LastEvent(events);
      if e.End? { assert e.id in Running(front); }
    }
  }

  /** Each finish is one entry of the log, in order: the placeholder stands for a missing or empty
      route, and status 500 for a handler that raised. */
  lemma {:induction false} LoggedMeaning(events: seq<Event>, n: nat)
    requires n < |events| && events[n].End?
    ensures var e, at := events[n], |Logged(events[..n])|;
      && at < |Logged(events)|
      && Logged(events)[at].duration == e.duration
      && Logged(events)[at].route.verb == e.verb
      && Logged(events)[at].route.path == (if e.route == "" then "__unmatched__" else e.route)
      && Logged(events)[at].status == match e.ended case Returned(status) => status case Raised => 500
  {
    var front := events[..|events| - 1];
    if n == |events| - 1 {
      assert events[..n] == front;
    } else {
      LoggedMeaning(front, n);
      assert front[..n] == events[..n];
    }
  }

  /** In every interleaving the gauge is the number of requests between start and finish. */
  lemma {:induction false} GaugeCountsRunning(events: seq<Event>)
    requires Schedule(events)
    ensures Gauge(events) == |Running(events)|
  {
    if events != [] {
      GaugeCountsRunning(events[..|events| - 1]);
      RunningHaveBegun(events[..|events| - 1]);
    }
  }

  /** So no finish ever meets a gauge of zero: the clamp in `request_finished` never engages. */
  lemma ClampNeverEngages(events: seq<Event>, n: nat)
    requires Schedule(events) && n < |events| && events[n].End?
    ensures Gauge(events[..n]) >= 1 && Gauge(events[..n + 1]) == Gauge(events[..n]) - 1
  {
    PrefixIsSchedule(events, n);
    PrefixIsSchedule(events, n + 1);
    assert events[..n + 1][..n] == events[..n];
    GaugeCountsRunning(events[..n]);
    assert events[n].id in Running(events[..n]);
  }

  lemma {:induction false} PrefixIsSchedule(events: seq<Event>, n: nat)
    requires Schedule(events) && n <= |events|
    ensures Schedule(events[..n])
  {
    if n < |events| {
      PrefixIsSchedule(events[..|events| - 1], n);
      assert events[..|events| - 1][..n] == events[..n];
    } else {
      assert events[..n] == events;
    }
  }
}
