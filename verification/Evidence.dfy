/** The evidence collector of the load test, under any interleaving of its workers. */
module Evidence {

  import opened Options

  datatype Sample = Sample(operation: string, status: int, duration: real)

  const MAX_LATENCY_SAMPLES: nat := 2_000_000

  function Bump<K>(m: map<K, nat>, k: K): map<K, nat> {
    m[k := Get(m, k) + 1]
  }

  function ListOf(m: map<string, seq<real>>, k: string): seq<real> {
    if k in m then m[k] else []
  }

  // ---------------------------------------------------------------- what a log of samples implies

  function Statuses(log: seq<Sample>): seq<int> {
    seq(|log|, i requires 0 <= i < |log| => log[i].status)
  }

  function Operations(log: seq<Sample>): seq<string> {
    seq(|log|, i requires 0 <= i < |log| => log[i].operation)
  }

  function Durations(log: seq<Sample>): seq<real> {
    seq(|log|, i requires 0 <= i < |log| => log[i].duration)
  }

  function DurationsOf(log: seq<Sample>, operation: string): seq<real> {
    if log == [] then [] else
      DurationsOf(log[..|log| - 1], operation) +
      if log[|log| - 1].operation == operation then [log[|log| - 1].duration] else []
  }

  function CountIn<K(==)>(xs: seq<K>, k: K): nat {
    if xs == [] then 0 else CountIn(xs[..|xs| - 1], k) + if xs[|xs| - 1] == k then 1 else 0
  }

  /** m counts the occurrences in xs. */
  ghost predicate Tallies<K(!new)>(m: map<K, nat>, xs: seq<K>) {
    forall k :: Get(m, k) == CountIn(xs, k) && (k in m <==> CountIn(xs, k) > 0)
  }

  ghost predicate Distinct<K>(keys: seq<K>) {
    forall i, j :: 0 <= i < j < |keys| ==> keys[i] != keys[j]
  }

  /** `sum(counter.values())` over the keys that satisfy p. */
  function SumWhere<K>(m: map<K, nat>, keys: seq<K>, p: K -> bool): nat {
    if keys == [] then 0 else
      SumWhere(m, keys[..|keys| - 1], p) + if p(keys[|keys| - 1]) then Get(m, keys[|keys| - 1]) else 0
  }

  lemma {:induction false} SumSplits<K>(m: map<K, nat>, keys: seq<K>, p: K -> bool, q: K -> bool)
    requires forall k :: k in keys ==> p(k) != q(k)
    ensures SumWhere(m, keys, p) + SumWhere(m, keys, q) == SumWhere(m, keys, k => true)
  {
    if keys != [] {
      SumSplits(m, keys[..|keys| - 1], p, q);
    }
  }

  /** Counting over any enumeration that covers xs finds every element once. */
  lemma {:induction false} SumOfTally<K(!new)>(xs: seq<K>, m: map<K, nat>, keys: seq<K>)
    requires Distinct(keys) && (forall i :: 0 <= i < |xs| ==> xs[i] in keys)
    requires forall k :: Get(m, k) == CountIn(xs, k)
    ensures SumWhere(m, keys, k => true) == |xs|
    decreases |xs|
  {
    if xs == [] {
      NothingCounted(m, keys);
    } else {
      var front, x := xs[..|xs| - 1], xs[|xs| - 1];
      assert forall k :: CountIn(xs, k) == CountIn(front, k) + if x == k then 1 else 0;
      var n := m[x := Get(m, x) - 1];
      SumOfTally(front, n, keys);
      OneMore(n, m, keys, x);
    }
  }

  lemma {:induction false} PresentCounts<K>(xs: seq<K>, i: nat)
    requires i < |xs|
    ensures CountIn(xs, xs[i]) > 0
  {
    if i < |xs| - 1 { PresentCounts(xs[..|xs| - 1], i); }
  }

  /** The keys of a tally are the elements it counts. */
  lemma TallyKeys<K(!new)>(m: map<K, nat>, xs: seq<K>, keys: seq<K>)
    requires Tallies(m, xs) && Distinct(keys) && (set k | k in keys) == m.Keys
    ensures SumWhere(m, keys, k => true) == |xs|
  {
    forall i | 0 <= i < |xs| ensures xs[i] in keys { PresentCounts(xs, i); }
    SumOfTally(xs, m, keys);
  }

  lemma {:induction false} NothingCounted<K>(m: map<K, nat>, keys: seq<K>)
    requires forall k :: k in keys ==> Get(m, k) == 0
    ensures SumWhere(m, keys, k => true) == 0
  {
    if keys != [] { NothingCounted(m, keys[..|keys| - 1]); }
  }

  lemma {:induction false} OneMore<K>(n: map<K, nat>, m: map<K, nat>, keys: seq<K>, x: K)
    requires Distinct(keys) && forall k :: k in keys ==> Get(m, k) == Get(n, k) + if k == x then 1 else 0
    ensures SumWhere(m, keys, k => true) == SumWhere(n, keys, k => true) + if x in keys then 1 else 0
  {
    if keys != [] {
      OneMore(n, m, keys[..|keys| - 1], x);
      assert keys == keys[..|keys| - 1] + [keys[|keys| - 1]];
    }
  }

  // ---------------------------------------------------------------- the collector

  /** The body of a worker's step, one atomic call after another. */
  datatype Event =
    | Request(operation: string, status: int, duration: real)  // a response came: record_http
    | Failure(error: string)                                   // an exception: record_exception
    | SocketOpened(id: nat)                                    // a websocket worker starts
    | SocketRefused(id: nat)                                   // it counts a failure and returns
    | SocketBroke(id: nat, error: string)                      // it counts a failure and the exception

  /** Samples that made it into the evidence: all until the cap is reached. */
  function Recorded(events: seq<Event>): seq<Sample> {
    if events == [] then [] else
      var log := Recorded(events[..|events| - 1]);
      match events[|events| - 1]
      case Request(operation, status, duration) =>
        if |log| >= MAX_LATENCY_SAMPLES then log else log + [Sample(operation, status, duration)]
      case _ => log
  }

  /** Exception names counted; beyond the cap each response counts as one. */
  function Errors(events: seq<Event>): seq<string> {
    if events == [] then [] else
      var errors := Errors(events[..|events| - 1]);
      match events[|events| - 1]
      case Request(_, _, _) =>
        if |Recorded(events[..|events| - 1])| >= MAX_LATENCY_SAMPLES then errors + ["RuntimeError"] else errors
      case Failure(error) => errors + [error]
      case SocketBroke(_, error) => errors + [error]
      case _ => errors
  }

  function Opened(events: seq<Event>): set<nat> {
    set e | e in events && e.SocketOpened? :: e.id
  }

  function Refused(events: seq<Event>): set<nat> {
    set e | e in events && (e.SocketRefused? || e.SocketBroke?) :: e.id
  }

  ghost predicate Enabled(before: seq<Event>, e: Event) {
    match e
    case SocketOpened(id) => id !in Opened(before)
    case SocketRefused(id) => id in Opened(before) - Refused(before)
    case SocketBroke(id, _) => id in Opened(before) - Refused(before)
    case _ => true
  }

  /** Every websocket worker starts once, and fails at most once, after that. */
  ghost predicate Schedule(events: seq<Event>) {
    events == [] ||
    (Schedule(events[..|events| - 1]) && Enabled(events[..|events| - 1], events[|events| - 1]))
  }

  lemma LastEvent(events: seq<Event>)
    requires events != []
    ensures var front, e := events[..|events| - 1], events[|events| - 1];
      && Opened(events) == Opened(front) + (if e.SocketOpened? then {e.id} else {})
      && Refused(events) == Refused(front) + if e.SocketRefused? || e.SocketBroke? then {e.id} else {}
  {
    var front, e := events[..|events| - 1], events[|events| - 1];
    assert forall x :: x in events <==> x in front || x == e by { assert events == front + [e]; }
  }

  lemma SocketStep(before: seq<Event>, e: Event)
    requires Enabled(before, e) && !e.Request? && !e.Failure?
    ensures var after := before + [e];
      && |Opened(after)| == |Opened(before)| + (if e.SocketOpened? then 1 else 0)
      && |Refused(after)| == |Refused(before)| + (if e.SocketOpened? then 0 else 1)
      && Recorded(after) == Recorded(before)
      && Errors(after) == Errors(before) + if e.SocketBroke? then [e.error] else []
  {
    var after := before + [e];
    LastEvent(after);
    assert after[..|after| - 1] == before;
  }

  /** The counters and lists of a collector. */
  datatype Fields = Fields(
    latencies: seq<real>,
    statuses: map<int, nat>,
    operations: map<string, nat>,
    operationLatencies: map<string, seq<real>>,
    exceptions: map<string, nat>)

  /** What all of them are, given the samples and the exceptions. */
  ghost predicate Describes(f: Fields, log: seq<Sample>, errors: seq<string>) {
    && f.latencies == Durations(log)
    && Tallies(f.statuses, Statuses(log))
    && Tallies(f.operations, Operations(log))
    && (forall k :: ListOf(f.operationLatencies, k) == DurationsOf(log, k))
    && Tallies(f.exceptions, errors)
    && |log| <= MAX_LATENCY_SAMPLES
  }

  /** `record_http` below the cap. */
  function WithSample(f: Fields, s: Sample): Fields {
    Fields(f.latencies + [s.duration], Bump(f.statuses, s.status), Bump(f.operations, s.operation),
           f.operationLatencies[s.operation := ListOf(f.operationLatencies, s.operation) + [s.duration]], f.exceptions)
  }

  lemma Recording(f: Fields, log: seq<Sample>, errors: seq<string>, s: Sample)
    requires Describes(f, log, errors) && |log| < MAX_LATENCY_SAMPLES
    ensures Describes(WithSample(f, s), log + [s], errors)
  {
    LogGrows(log, s);
    TallyGrows(f.statuses, Statuses(log), s.status);
    TallyGrows(f.operations, Operations(log), s.operation);
  }

  lemma TallyGrows<K(!new)>(m: map<K, nat>, xs: seq<K>, x: K)
    requires Tallies(m, xs)
    ensures Tallies(Bump(m, x), xs + [x])
  {
    assert (xs + [x])[..|xs|] == xs;
  }

  lemma LogGrows(log: seq<Sample>, s: Sample)
    ensures Statuses(log + [s]) == Statuses(log) + [s.status]
    ensures Operations(log + [s]) == Operations(log) + [s.operation]
    ensures Durations(log + [s]) == Durations(log) + [s.duration]
    ensures forall k :: DurationsOf(log + [s], k) ==
              DurationsOf(log, k) + if s.operation == k then [s.duration] else []
  {
    assert (log + [s])[..|log|] == log;
  }

  class Collector {
    var latencies: seq<real>
    var statuses: map<int, nat>
    var operations: map<string, nat>
    var operationLatencies: map<string, seq<real>>
    var websocketAttempts: nat
    var websocketFailures: nat
    var exceptions: map<string, nat>
    ghost var log: seq<Sample>
    ghost var errors: seq<string>

    constructor()
      ensures Valid() && log == [] && errors == [] && websocketAttempts == websocketFailures == 0
    {
      latencies, statuses, operations, operationLatencies := [], map[], map[], map[];
      websocketAttempts, websocketFailures, exceptions := 0, 0, map[];
      log, errors := [], [];
    }

    function All(): Fields
      reads this
    {
      Fields(latencies, statuses, operations, operationLatencies, exceptions)
    }

    ghost predicate Valid()
      reads this
    {
      Describes(All(), log, errors)
    }

    /** False is the RuntimeError at the cap, which leaves everything as it was. */
    method RecordHttp(operation: string, status: int, duration: real) returns (ok: bool)
      requires Valid()
      modifies this
      ensures Valid() && errors == old(errors)
      ensures ok <==> |old(log)| < MAX_LATENCY_SAMPLES
      ensures log == if ok then old(log) + [Sample(operation, status, duration)] else old(log)
      ensures !ok ==> unchanged(this)
      ensures websocketAttempts == old(websocketAttempts) && websocketFailures == old(websocketFailures)
    {
      if |latencies| >= MAX_LATENCY_SAMPLES { return false; }
      Recording(All(), log, errors, Sample(operation, status, duration));
      latencies := latencies + [duration];
      statuses := Bump(statuses, status);
      operations := Bump(operations, operation);
      operationLatencies := operationLatencies[operation := ListOf(operationLatencies, operation) + [duration]];
      log := log + [Sample(operation, status, duration)];
      assert All() == WithSample(old(All()), Sample(operation, status, duration));
      return true;
    }

    method RecordException(error: string)
      requires Valid()
      modifies this
      ensures Valid() && log == old(log) && errors == old(errors) + [error]
      ensures websocketAttempts == old(websocketAttempts) && websocketFailures == old(websocketFailures)
    {
      TallyGrows(exceptions, errors, error);
      exceptions := Bump(exceptions, error);
      errors := errors + [error];
    }

    /** The state after a history of calls. */
    ghost predicate Shows(events: seq<Event>)
      reads this
    {
      && Valid() && log == Recorded(events) && errors == Errors(events)
      && websocketAttempts == |Opened(events)| && websocketFailures == |Refused(events)|
    }

    method HandleCall(e: Event, ghost before: seq<Event>)
      requires Shows(before) && (e.Request? || e.Failure?)
      modifies this
      ensures Shows(before + [e])
    {
      LastEvent(before + [e]);
      ghost var after := before + [e];
      assert after[..|after| - 1] == before;
      match e {
        case Request(operation, status, duration) =>
          var ok := RecordHttp(operation, status, duration);
          if !ok { RecordException("RuntimeError"); }
        case Failure(error) => RecordException(error);
      }
    }

    method HandleSocket(e: Event, ghost before: seq<Event>)
      requires Shows(before) && Enabled(before, e) && !e.Request? && !e.Failure?
      modifies this
      ensures Shows(before + [e])
    {
      SocketStep(before, e);
      if e.SocketOpened? {
        websocketAttempts := websocketAttempts + 1;
      } else {
        websocketFailures := websocketFailures + 1;
        if e.SocketBroke? { RecordException(e.error); }
      }
    }

    /** Any interleaving of the workers, call by call. */
    method Replay(events: seq<Event>)
      requires Schedule(events) && Shows([])
      modifies this
      ensures Shows(events)
    {
      for n := 0 to |events|
        invariant Shows(events[..n])
      {
        PrefixIsSchedule(events, n + 1);
        assert events[..n + 1][..n] == events[..n] && events[..n + 1] == events[..n] + [events[n]];
        if events[n].Request? || events[n].Failure? {
          HandleCall(events[n], events[..n]);
        } else {
          HandleSocket(events[n], events[..n]);
        }
      }
      assert events[..|events|] == events;
    }
  }

  lemma {:induction false} PrefixIsSchedule(events: seq<Event>, n: nat)
    requires Schedule(events) && n <= |events|
    ensures Schedule(events[..n])
  {
    if n < |events| {
      PrefixIsSchedule(events[..|events| - 1], n);
      assert events[..|events| - 1][..n] == events[..n];
    } else {
      assert events[..n] == events;
    }
  }

  // ---------------------------------------------------------------- the summary

  /** A websocket worker that failed had started: the failure percentage is at most 100. */
  lemma {:induction false} FailuresAreAttempts(events: seq<Event>)
    requires Schedule(events)
    ensures Refused(events) <= Opened(events) && |Refused(events)| <= |Opened(events)|
  {
    if events != [] {
      FailuresAreAttempts(events[..|events| - 1]);
      LastEvent(events);
    }
    var rest := Opened(events) - Refused(events);
    assert Opened(events) == Refused(events) + rest;
  }

  /** Status total, operation total and sample count are one number, and `requests` is
      `successful_http` plus `failed`, for any enumeration of the counters. */
  lemma TotalsAgree(e: Fields, log: seq<Sample>, errors: seq<string>, statuses: seq<int>, operations: seq<string>,
                    names: seq<string>)
    requires Describes(e, log, errors)
    requires Distinct(statuses) && (set k | k in statuses) == e.statuses.Keys
    requires Distinct(operations) && (set k | k in operations) == e.operations.Keys
    requires Distinct(names) && (set k | k in names) == e.exceptions.Keys
    ensures SumWhere(e.statuses, statuses, k => true) == SumWhere(e.operations, operations, k => true) ==
            |e.latencies| == |log|
    ensures var errorsTotal := SumWhere(e.exceptions, names, k => true);
            errorsTotal == |errors| &&
            SumWhere(e.statuses, statuses, k => true) + errorsTotal ==
            SumWhere(e.statuses, statuses, k => k < 400) + (SumWhere(e.statuses, statuses, k => k >= 400) + errorsTotal)
  {
    TallyKeys(e.statuses, Statuses(log), statuses);
    TallyKeys(e.operations, Operations(log), operations);
    TallyKeys(e.exceptions, errors, names);
    SumSplits(e.statuses, statuses, k => k < 400, k => k >= 400);
  }

  /** Nothing is lost at the cap: every response and every exception is counted once. */
  lemma {:induction false} EveryEventCounts(events: seq<Event>)
    ensures |Recorded(events)| + |Errors(events)| == Counted(events)
  {
    if events != [] { EveryEventCounts(events[..|events| - 1]); }
  }

  function Counted(events: seq<Event>): nat {
    if events == [] then 0 else
      Counted(events[..|events| - 1]) +
      match events[|events| - 1] case SocketOpened(_) => 0 case SocketRefused(_) => 0 case _ => 1
  }

  /** The per-operation lists together hold exactly the latencies. */
  lemma {:induction false} ListsUnite(log: seq<Sample>, operations: seq<string>)
    requires Distinct(operations) && forall i :: 0 <= i < |log| ==> log[i].operation in operations
    ensures Union(log, operations) == multiset(Durations(log))
  {
    if log == [] {
      EmptyUnion(operations);
    } else {
      var front, s := log[..|log| - 1], log[|log| - 1];
      ListsUnite(front, operations);
      assert front + [s] == log;
      LogGrows(front, s);
      UnionGrows(front, s, operations);
    }
  }

  function Union(log: seq<Sample>, operations: seq<string>): multiset<real> {
    if operations == [] then multiset{} else
      Union(log, operations[1..]) + multiset(DurationsOf(log, operations[0]))
  }

  lemma {:induction false} EmptyUnion(operations: seq<string>)
    ensures Union([], operations) == multiset{}
  {
    if operations != [] { EmptyUnion(operations[1..]); }
  }

  /** What one sample adds to the lists under the given names. */
  function Share(s: Sample, operations: seq<string>): multiset<real> {
    if s.operation in operations then multiset{s.duration} else multiset{}
  }

  lemma OperationGrows(log: seq<Sample>, s: Sample, operation: string)
    ensures multiset(DurationsOf(log + [s], operation)) == multiset(DurationsOf(log, operation)) + Share(s, [operation])
  {
    assert (log + [s])[..|log|] == log;
  }

  lemma SharesAddUp(s: Sample, operations: seq<string>)
    requires operations != [] && Distinct(operations)
    ensures Distinct(operations[1..])
    ensures Share(s, operations[1..]) + Share(s, [operations[0]]) == Share(s, operations)
  {
    assert operations == [operations[0]] + operations[1..];
    assert operations[0] !in operations[1..] by {
      assert forall i :: 1 <= i < |operations| ==> operations[i] != operations[0];
    }
  }

  lemma Exchange(a: multiset<real>, b: multiset<real>, c: multiset<real>, d: multiset<real>)
    ensures (a + b) + (c + d) == (a + c) + (b + d)
  {}

  lemma {:induction false} UnionGrows(log: seq<Sample>, s: Sample, operations: seq<string>)
    requires Distinct(operations)
    ensures Union(log + [s], operations) == Union(log, operations) + Share(s, operations)
  {
    if operations != [] {
      var name, rest := operations[0], operations[1..];
      SharesAddUp(s, operations);
      UnionGrows(log, s, rest);
      OperationGrows(log, s, name);
      Exchange(Union(log, rest), Share(s, rest), multiset(DurationsOf(log, name)), Share(s, [name]));
    }
  }

  // ---------------------------------------------------------------- what is recorded

  lemma {:induction false} CountInMeaning<K>(xs: seq<K>, k: K)
    ensures CountIn(xs, k) == multiset(xs)[k]
  {
    if xs != [] {
      CountInMeaning(xs[..|xs| - 1], k);
      assert xs == xs[..|xs| - 1] + [xs[|xs| - 1]];
    }
  }

  /** All responses, in order, whether there was room for them or not. */
  function Responses(events: seq<Event>): seq<Sample> {
    if events == [] then [] else
      Responses(events[..|events| - 1]) +
      match events[|events| - 1]
      case Request(operation, status, duration) => [Sample(operation, status, duration)]
      case _ => []
  }

  /** Each response is one of them, with its operation, status and duration. */
  lemma {:induction false} ResponseMeaning(events: seq<Event>, n: nat)
    requires n < |events| && events[n].Request?
    ensures var at := |Responses(events[..n])|;
      && at < |Responses(events)|
      && Responses(events)[at].operation == events[n].operation
      && Responses(events)[at].status == events[n].status
      && Responses(events)[at].duration == events[n].duration
  {
    var front := events[..|events| - 1];
    if n == |events| - 1 {
      assert events[..n] == front;
    } else {
      ResponseMeaning(front, n);
      assert front[..n] == events[..n];
    }
  }

  lemma {:induction false} ResponseCount(events: seq<Event>)
    ensures |Responses(events)| == |set i: nat | i < |events| && events[i].Request?|
  {
    var all := set i: nat | i < |events| && events[i].Request?;
    if events == [] {
      assert all == {};
    } else {
      var front, last := events[..|events| - 1], |events| - 1;
      ResponseCount(front);
      var before := set i: nat | i < |front| && front[i].Request?;
      assert all == before + if events[last].Request? then {last} else {};
    }
  }

  /** The first two million responses are recorded, and no others. */
  lemma {:induction false} RecordedMeaning(events: seq<Event>)
    ensures Recorded(events) ==
            if |Responses(events)| <= 2_000_000 then Responses(events) else Responses(events)[..2_000_000]
  {
    if events != [] { RecordedMeaning(events[..|events| - 1]); }
  }

  /** The exceptions counted under a name: those of the workers, and a RuntimeError for every
      response beyond the cap. */
  lemma {:induction false} ErrorMeaning(events: seq<Event>, name: string)
    ensures CountIn(Errors(events), name) ==
            |FailuresOf(events, name)| +
            if name == "RuntimeError" && |Responses(events)| > 2_000_000 then |Responses(events)| - 2_000_000 else 0
  {
    if events == [] {
      assert FailuresOf(events, name) == {};
    } else {
      var front := events[..|events| - 1];
      ErrorMeaning(front, name);
      RecordedMeaning(front);
      FailuresStep(events, name);
      ErrorStep(events, name);
    }
  }

  lemma FailuresStep(events: seq<Event>, name: string)
    requires events != []
    ensures var front, e := events[..|events| - 1], events[|events| - 1];
            |FailuresOf(events, name)| == |FailuresOf(front, name)| +
            if e == Failure(name) || (e.SocketBroke? && e.error == name) then 1 else 0
  {
    var front, last := events[..|events| - 1], |events| - 1;
    assert FailuresOf(events, name) == FailuresOf(front, name) +
      if events[last] == Failure(name) || (events[last].SocketBroke? && events[last].error == name) then {last} else {};
  }

  /** The events that report an exception of this name. */
  ghost function FailuresOf(events: seq<Event>, name: string): set<nat> {
    set i: nat | i < |events| && (events[i] == Failure(name) ||
                                  (events[i].SocketBroke? && events[i].error == name))
  }

  lemma ErrorStep(events: seq<Event>, name: string)
    requires events != []
    ensures var front, e := events[..|events| - 1], events[|events| - 1];
            CountIn(Errors(events), name) == CountIn(Errors(front), name) +
            if e == Failure(name) || (e.SocketBroke? && e.error == name) ||
               (e.Request? && |Recorded(front)| >= 2_000_000 && name == "RuntimeError") then 1 else 0
  {
    var errors := Errors(events[..|events| - 1]);
    forall error: string ensures (errors + [error])[..|errors|] == errors {}
  }

  /** The list of an operation holds the durations of its samples, in order. */
  lemma {:induction false} DurationsMeaning(log: seq<Sample>, n: nat, operation: string)
    requires n < |log|
    ensures var at := |DurationsOf(log[..n], operation)|;
            if log[n].operation == operation then
              at < |DurationsOf(log, operation)| && DurationsOf(log, operation)[at] == log[n].duration &&
              |DurationsOf(log[..n + 1], operation)| == at + 1
            else |DurationsOf(log[..n + 1], operation)| == at
  {
    var front := log[..|log| - 1];
    assert log[..n + 1][..n] == log[..n];
    if n == |log| - 1 {
      assert log[..n] == front && log[..n + 1] == log;
    } else {
      DurationsMeaning(front, n, operation);
      assert front[..n] == log[..n] && front[..n + 1] == log[..n + 1];
    }
  }
}
