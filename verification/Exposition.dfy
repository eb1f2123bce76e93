/** The metrics text: rendering a snapshot line by line, and a reader that recovers its maps. */
module Exposition {

  import opened Options
  import opened Ordering
  import opened Text
  import opened Labels
  import opened Metrics

  const FAMILY := "sbs_http_request_duration_seconds"
  const COUNTER := "sbs_http_requests_total{method=\""
  const BUCKET := FAMILY + "_bucket{method=\""
  const SUM := FAMILY + "_sum{method=\""
  const COUNT := FAMILY + "_count{method=\""
  const ALERT := "sbs_alertmanager_events_total{status=\""
  const PATH := ",path=\""
  const STATUS := ",status=\""
  const LE := ",le=\""
  const VALUE := "} "

  /** The boundaries as `{boundary:g}` prints them, and the last bucket. */
  const LABELS: seq<string> := ["0.05", "0.1", "0.25", "0.5", "1", "2.5", "5", "+Inf"]

  /** The labels of a route after the opening quote of the first. */
  function RouteLabels(r: Route): string {
    Escape(r.verb) + "\"" + (PATH + (Escape(r.path) + "\""))
  }

  function CounterLine(k: RequestKey, n: nat): string {
    COUNTER + (Escape(k.route.verb) + "\"" + (PATH + (Escape(k.route.path) + "\"" +
      (STATUS + (Decimals(k.status) + "\"" + (VALUE + Decimal(n)))))))
  }

  function BucketLine(r: Route, le: string, n: nat): string {
    BUCKET + (Escape(r.verb) + "\"" + (PATH + (Escape(r.path) + "\"" +
      (LE + (le + "\"" + (VALUE + Decimal(n)))))))
  }

  // ---------------------------------------------------------------- reading lines

  /** What follows p in s. */
  function After(s: string, p: string): Option<string> {
    if p <= s then Some(s[|p|..]) else None
  }

  datatype Rest = NoRest | Rest(route: Route, rest: string)

  function ReadRoute(s: string): Rest {
    match ReadLabel(s)
    case NoLabel => NoRest
    case Label(verb, rest) =>
      match After(rest, PATH)
      case None => NoRest
      case Some(t) =>
        match ReadLabel(t)
        case NoLabel => NoRest
        case Label(path, u) => Rest(Route(verb, path), u)
  }

  datatype Valued = NoValue | Valued(third: string, value: int)

  /** A third label without escapes, and the value of the line. */
  function ReadValue(s: string, name: string): Valued {
    match After(s, name)
    case None => NoValue
    case Some(t) =>
      match CutAt(t, '"')
      case Whole => NoValue
      case Cut(third, u) =>
        match After(u, VALUE)
        case None => NoValue
        case Some(v) => if ParseInt(v).None? then NoValue else Valued(third, ParseInt(v).value)
  }

  datatype Sample = NoSample | Sample(route: Route, third: string, value: int)

  function ReadSample(line: string, prefix: string, name: string): Sample {
    match After(line, prefix)
    case None => NoSample
    case Some(s) =>
      match ReadRoute(s)
      case NoRest => NoSample
      case Rest(route, rest) =>
        match ReadValue(rest, name)
        case NoValue => NoSample
        case Valued(third, value) => Sample(route, third, value)
  }

  lemma AfterPrefix(p: string, s: string)
    ensures After(p + s, p) == Some(s)
  {
    assert (p + s)[|p|..] == s;
  }

  lemma RouteReads(r: Route, rest: string)
    ensures ReadRoute(Escape(r.verb) + "\"" + (PATH + (Escape(r.path) + "\"" + rest))) == Rest(r, rest)
  {
    ReadEscaped(r.verb, PATH + (Escape(r.path) + "\"" + rest));
    AfterPrefix(PATH, Escape(r.path) + "\"" + rest);
    ReadEscaped(r.path, rest);
  }

  lemma ValueReads(name: string, third: string, n: nat)
    requires '"' !in third
    ensures ReadValue(name + (third + "\"" + (VALUE + Decimal(n))), name) == Valued(third, n)
  {
    AfterPrefix(name, third + "\"" + (VALUE + Decimal(n)));
    CutFinds(third, '"', VALUE + Decimal(n));
    AfterPrefix(VALUE, Decimal(n));
    ParseDecimal(n);
  }

  lemma SampleReads(prefix: string, name: string, r: Route, third: string, n: nat)
    requires '"' !in third
    ensures ReadSample(prefix + (Escape(r.verb) + "\"" + (PATH + (Escape(r.path) + "\"" +
              (name + (third + "\"" + (VALUE + Decimal(n))))))), prefix, name) == Sample(r, third, n)
  {
    var rest := name + (third + "\"" + (VALUE + Decimal(n)));
    AfterPrefix(prefix, Escape(r.verb) + "\"" + (PATH + (Escape(r.path) + "\"" + rest)));
    RouteReads(r, rest);
    ValueReads(name, third, n);
  }

  lemma NoSampleElsewhere(line: string, prefix: string, name: string)
    requires !(prefix <= line)
    ensures ReadSample(line, prefix, name) == NoSample
  {}

  // ---------------------------------------------------------------- collecting a map

  datatype LeKey = LeKey(route: Route, le: string)

  function ReadCounter(line: string): Option<(RequestKey, int)> {
    match ReadSample(line, COUNTER, STATUS)
    case NoSample => None
    case Sample(route, third, value) =>
      if ParseInt(third).None? then None else Some((RequestKey(route, ParseInt(third).value), value))
  }

  function ReadBucket(line: string): Option<(LeKey, int)> {
    match ReadSample(line, BUCKET, LE)
    case NoSample => None
    case Sample(route, third, value) => Some((LeKey(route, third), value))
  }

  /** The map of all readable lines of a text; a repeated key takes its last value. */
  function Collect<K, V>(lines: seq<string>, read: string -> Option<(K, V)>): map<K, V> {
    if lines == [] then map[] else
      var m := Collect(lines[..|lines| - 1], read);
      match read(lines[|lines| - 1]) case None => m case Some(kv) => m[kv.0 := kv.1]
  }

  /** Lines that all agree with a map and mention every key of it collect to that map. */
  lemma {:induction false} Collects<K, V>(lines: seq<string>, read: string -> Option<(K, V)>, target: map<K, V>)
    requires forall l :: l in lines && read(l).Some? ==>
               read(l).value.0 in target && target[read(l).value.0] == read(l).value.1
    ensures forall k :: k in Collect(lines, read) ==> k in target && Collect(lines, read)[k] == target[k]
    ensures forall l :: l in lines && read(l).Some? ==> read(l).value.0 in Collect(lines, read)
  {
    if lines != [] {
      var front, last := lines[..|lines| - 1], lines[|lines| - 1];
      Collects(front, read, target);
      assert lines == front + [last];
    }
  }

  /** Lines that agree with a map and mention every key of it collect to that map. */
  lemma CollectsAll<K, V>(lines: seq<string>, read: string -> Option<(K, V)>, target: map<K, V>)
    requires forall l :: l in lines && read(l).Some? ==>
               read(l).value.0 in target && target[read(l).value.0] == read(l).value.1
    requires forall k :: k in target ==> Mentions(lines, read, k)
    ensures Collect(lines, read) == target
  {
    Collects(lines, read, target);
    forall k | k in target ensures k in Collect(lines, read) {
      assert Mentions(lines, read, k);
    }
  }

  ghost predicate Mentions<K, V>(lines: seq<string>, read: string -> Option<(K, V)>, k: K) {
    exists l :: l in lines && read(l).Some? && read(l).value.0 == k
  }

  // ---------------------------------------------------------------- the lines of a render

  /** One line for each of the first n keys. */
  function Each<K>(keys: seq<K>, n: nat, line: K -> string): seq<string>
    requires n <= |keys|
  {
    if n == 0 then [] else Each(keys, n - 1, line) + [line(keys[n - 1])]
  }

  lemma {:induction false} EachMembers<K>(keys: seq<K>, n: nat, line: K -> string, l: string)
    requires n <= |keys|
    ensures l in Each(keys, n, line) <==> exists i :: 0 <= i < n && l == line(keys[i])
  {
    if n > 0 { EachMembers(keys, n - 1, line, l); }
  }

  function CounterLines(keys: seq<RequestKey>, n: nat, m: map<RequestKey, nat>): seq<string>
    requires n <= |keys|
  {
    Each(keys, n, (k: RequestKey) => CounterLine(k, Get(m, k)))
  }

  /** The value of bucket number i of a route. */
  function BucketValue(s: Snapshot, r: Route, i: nat): nat
    requires r in s.durationCount && i < |LABELS|
  {
    if i < |BUCKETS| then Get(s.durationBuckets, BucketKey(r, BUCKETS[i])) else s.durationCount[r]
  }

  /** The first n bucket lines of a route. */
  function BucketLines(s: Snapshot, r: Route, n: nat): seq<string>
    requires r in s.durationCount && n <= |LABELS|
  {
    if n == 0 then [] else
      BucketLines(s, r, n - 1) + [BucketLine(r, LABELS[n - 1], BucketValue(s, r, n - 1))]
  }

  function SumLine(r: Route, sum: string): string {
    SUM + (RouteLabels(r) + (VALUE + sum))
  }

  function CountLine(r: Route, n: nat): string {
    COUNT + (RouteLabels(r) + (VALUE + Decimal(n)))
  }

  /** `fixed` prints a duration sum with nine decimals. Both lookups rely on the two key sets
      of a snapshot being equal. */
  function Block(s: Snapshot, r: Route, fixed: real -> string): seq<string>
    requires r in s.durationCount && r in s.durationSum
  {
    BucketLines(s, r, |LABELS|) + [SumLine(r, fixed(s.durationSum[r])), CountLine(r, s.durationCount[r])]
  }

  function Blocks(s: Snapshot, routes: seq<Route>, n: nat, fixed: real -> string): seq<string>
    requires n <= |routes| && forall r :: r in routes ==> r in s.durationCount && r in s.durationSum
  {
    if n == 0 then [] else Blocks(s, routes, n - 1, fixed) + Block(s, routes[n - 1], fixed)
  }

  function AlertLines(keys: seq<string>, n: nat, m: map<string, nat>): seq<string>
    requires n <= |keys|
  {
    Each(keys, n, (k: string) => AlertLine(k, Get(m, k)))
  }

  function AlertLine(status: string, n: nat): string {
    ALERT + (Escape(status) + "\"" + (VALUE + Decimal(n)))
  }

  datatype Family = Family(name: string, help: string, kind: string)

  const REQUESTS := Family("sbs_http_requests_total", "Total HTTP requests.", "counter")
  const DURATIONS := Family(FAMILY, "Request duration in seconds.", "histogram")
  const EVENTS := Family("sbs_alertmanager_events_total", "Alertmanager webhook events accepted.", "counter")

  const IN_PROGRESS := Family("sbs_http_requests_in_progress", "Current in-progress HTTP requests.", "gauge")
  const START := Family("sbs_process_start_time_seconds", "Process start time since Unix epoch.", "gauge")
  const WEBSOCKETS := Family("sbs_websocket_connections", "Current WebSocket connections.", "gauge")
  const DASHBOARD := Family("sbs_dashboard_events_total", "Dashboard events published by this process.", "counter")
  const TRANSPORT := Family("sbs_dashboard_transport_ready", "Dashboard Redis transport readiness.", "gauge")

  /** The metrics without labels, in order. */
  const GAUGES: seq<Family> := [IN_PROGRESS, START, WEBSOCKETS, DASHBOARD, TRANSPORT]

  /** Their values; `start` is the process start time with three decimals. */
  function GaugeValues(s: Snapshot, start: string): seq<string> {
    [Decimal(s.inProgress), start, Decimal(s.websockets), Decimal(s.dashboardEvents), Decimal(s.transportReady)]
  }

  /** The two comment lines of a metric. */
  function Comments(f: Family): seq<string> {
    ["# HELP " + f.name + " " + f.help, "# TYPE " + f.name + " " + f.kind]
  }

  function GaugeLines(values: seq<string>, n: nat): seq<string>
    requires n <= |GAUGES| == |values|
  {
    if n == 0 then [] else
      GaugeLines(values, n - 1) + Comments(GAUGES[n - 1]) + [GAUGES[n - 1].name + " " + values[n - 1]]
  }

  function Gauges(s: Snapshot, start: string): seq<string> {
    GaugeLines(GaugeValues(s, start), |GAUGES|) + Comments(EVENTS)
  }

  /** Everything a render depends on besides the snapshot: the sorted keys and number formats. */
  datatype Layout = Layout(keys: seq<RequestKey>, routes: seq<Route>, statuses: seq<string>,
                           fixed: real -> string, start: string)

  predicate RouteLess(a: Route, b: Route) {
    StringLess(a.verb, b.verb) || (a.verb == b.verb && StringLess(a.path, b.path))
  }

  predicate KeyLess(a: RequestKey, b: RequestKey) {
    RouteLess(a.route, b.route) || (a.route == b.route && a.status < b.status)
  }

  lemma KeyOrders()
    ensures StrictTotal(RouteLess) && StrictTotal(KeyLess)
  {
    StringsAreOrdered();
    forall a: Route, b: Route ensures a == b || RouteLess(a, b) || RouteLess(b, a) {
      assert a.verb == b.verb || StringLess(a.verb, b.verb) || StringLess(b.verb, a.verb);
      assert a.path == b.path || StringLess(a.path, b.path) || StringLess(b.path, a.path);
    }
    forall a: RequestKey, b: RequestKey ensures a == b || KeyLess(a, b) || KeyLess(b, a) {
      assert a.route == b.route || RouteLess(a.route, b.route) || RouteLess(b.route, a.route);
    }
  }

  /** The keys of the snapshot, each once, in order. */
  ghost predicate Lays(y: Layout, s: Snapshot) {
    && Ascending(y.keys, KeyLess) && (forall k :: k in y.keys <==> k in s.requests)
    && Ascending(y.routes, RouteLess) && (forall r :: r in y.routes <==> r in s.durationSum)
    && Ascending(y.statuses, StringLess) && (forall a :: a in y.statuses <==> a in s.alerts)
  }

  predicate OneLine(s: string) {
    '\n' !in s
  }

  /** The number formats print no newline. */
  ghost predicate PrintableFormats(fixed: real -> string, start: string) {
    OneLine(start) && forall x :: OneLine(fixed(x))
  }

  ghost predicate Printable(y: Layout) {
    PrintableFormats(y.fixed, y.start)
  }

  ghost predicate Consistent(s: Snapshot) {
    s.durationSum.Keys == s.durationCount.Keys
  }

  ghost function Lines(s: Snapshot, y: Layout): seq<string>
    requires Consistent(s) && Lays(y, s)
  {
    Comments(REQUESTS) +
    CounterLines(y.keys, |y.keys|, s.requests) +
    Comments(DURATIONS) + Blocks(s, y.routes, |y.routes|, y.fixed) +
    Gauges(s, y.start) + AlertLines(y.statuses, |y.statuses|, s.alerts)
  }

  /** `"\n".join(lines) + "\n"`. */
  function TextOf(lines: seq<string>): string
    requires lines != []
  {
    Join(lines, '\n') + "\n"
  }

  /** The text of one snapshot. */
  method RenderSnapshot(s: Snapshot, fixed: real -> string, start: string) returns (text: string, ghost y: Layout)
    requires Consistent(s)
    ensures Lays(y, s) && y.fixed == fixed && y.start == start
    ensures text == TextOf(Lines(s, y))
  {
    KeyOrders();
    StringsAreOrdered();
    var keys := SortSet(s.requests.Keys, KeyLess);
    var routes := SortSet(s.durationSum.Keys, RouteLess);
    var statuses := SortSet(s.alerts.Keys, StringLess);
    y := Layout(keys, routes, statuses, fixed, start);
    var counters := RenderCounters(s, keys);
    var blocks := RenderRoutes(s, routes, fixed);
    var alerts := RenderAlerts(s, statuses);
    text := TextOf(
      Comments(REQUESTS) + counters +
      Comments(DURATIONS) + blocks + Gauges(s, start) + alerts);
  }

  method RenderCounters(s: Snapshot, keys: seq<RequestKey>) returns (lines: seq<string>)
    ensures lines == CounterLines(keys, |keys|, s.requests)
  {
    lines := [];
    for n := 0 to |keys|
      invariant lines == CounterLines(keys, n, s.requests)
    {
      lines := lines + [CounterLine(keys[n], Get(s.requests, keys[n]))];
    }
  }

  method RenderRoutes(s: Snapshot, routes: seq<Route>, fixed: real -> string) returns (lines: seq<string>)
    requires forall r :: r in routes ==> r in s.durationCount && r in s.durationSum
    ensures lines == Blocks(s, routes, |routes|, fixed)
  {
    lines := [];
    for n := 0 to |routes|
      invariant lines == Blocks(s, routes, n, fixed)
    {
      var block := RenderRoute(s, routes[n], fixed);
      lines := lines + block;
    }
  }

  /** The lines of one route. */
  method RenderRoute(s: Snapshot, r: Route, fixed: real -> string) returns (lines: seq<string>)
    requires r in s.durationCount && r in s.durationSum
    ensures lines == Block(s, r, fixed)
  {
    var buckets: seq<string> := [];
    for i := 0 to |BUCKETS|
      invariant buckets == BucketLines(s, r, i)
    {
      var value := Get(s.durationBuckets, BucketKey(r, BUCKETS[i]));
      assert value == BucketValue(s, r, i);
      buckets := buckets + [BucketLine(r, LABELS[i], value)];
    }
    assert LABELS[|BUCKETS|] == "+Inf" && BucketValue(s, r, |BUCKETS|) == s.durationCount[r];
    buckets := buckets + [BucketLine(r, "+Inf", s.durationCount[r])];
    lines := buckets + [SumLine(r, fixed(s.durationSum[r])), CountLine(r, s.durationCount[r])];
  }

  method RenderAlerts(s: Snapshot, statuses: seq<string>) returns (lines: seq<string>)
    ensures lines == AlertLines(statuses, |statuses|, s.alerts)
  {
    lines := [];
    for n := 0 to |statuses|
      invariant lines == AlertLines(statuses, n, s.alerts)
    {
      lines := lines + [AlertLine(statuses[n], Get(s.alerts, statuses[n]))];
    }
  }

  // ---------------------------------------------------------------- reading a render back

  ghost predicate IsCounter(s: Snapshot, l: string) {
    exists k :: k in s.requests && l == CounterLine(k, s.requests[k])
  }

  ghost predicate IsBucket(s: Snapshot, l: string) {
    exists r, i :: r in s.durationCount && 0 <= i < |LABELS| && l == BucketLine(r, LABELS[i], BucketValue(s, r, i))
  }

  predicate Plain(l: string) {
    !(COUNTER <= l) && !(BUCKET <= l) && '\n' !in l
  }

  lemma LabelsDiffer(i: nat, j: nat)
    requires i < j < |LABELS|
    ensures LABELS[i] != LABELS[j]
  {
    assert LABELS[i][0] != LABELS[j][0] || |LABELS[i]| != |LABELS[j]| || LABELS[i][2] != LABELS[j][2];
  }

  /** The position of a label. */
  ghost function IndexOf(le: string): (i: nat)
    requires le in LABELS
    ensures i < |LABELS| && LABELS[i] == le
  {
    var i :| 0 <= i < |LABELS| && LABELS[i] == le; i
  }

  ghost function CounterMap(s: Snapshot): map<RequestKey, int> {
    map k | k in s.requests :: s.requests[k] as int
  }

  /** Every bucket a render shows, the +Inf bucket included, under its printed boundary. */
  ghost function BucketMap(s: Snapshot): map<LeKey, int> {
    map k | k in (set r, i | r in s.durationCount.Keys && 0 <= i < |LABELS| :: LeKey(r, LABELS[i])) ::
      BucketValue(s, k.route, IndexOf(k.le))
  }

  lemma FamilyIsOneLine()
    ensures '\n' !in FAMILY && '\n' !in BUCKET && '\n' !in SUM && '\n' !in COUNT
  {
    assert '\n' !in FAMILY;
    assert '\n' !in "_bucket{method=\"" && '\n' !in "_sum{method=\"" && '\n' !in "_count{method=\"";
  }

  lemma LiteralsAreOneLine()
    ensures '\n' !in COUNTER && '\n' !in BUCKET && '\n' !in SUM && '\n' !in COUNT && '\n' !in ALERT
    ensures '\n' !in PATH && '\n' !in STATUS && '\n' !in LE && '\n' !in VALUE && '\n' !in FAMILY
  {
    FamilyIsOneLine();
  }

  lemma PrefixesDiffer(s: string)
    ensures !(BUCKET <= COUNTER + s) && !(COUNTER <= BUCKET + s)
    ensures !(BUCKET <= SUM + s) && !(COUNTER <= SUM + s)
    ensures !(BUCKET <= COUNT + s) && !(COUNTER <= COUNT + s)
    ensures !(BUCKET <= ALERT + s) && !(COUNTER <= ALERT + s)
  {
    assert COUNTER[4] == 'h' && COUNTER[16] == 's';
    assert |FAMILY| == 33 && FAMILY[4] == 'h' && FAMILY[16] == '_';
    assert BUCKET[16] == SUM[16] == COUNT[16] == FAMILY[16] && BUCKET[4] == FAMILY[4];
    assert BUCKET[34] == 'b' && SUM[34] == 's' && COUNT[34] == 'c';
    assert ALERT[4] == 'a';
    assert (COUNTER + s)[16] == COUNTER[16] && (BUCKET + s)[16] == BUCKET[16];
    assert (SUM + s)[16] == SUM[16] && (SUM + s)[34] == SUM[34];
    assert (COUNT + s)[16] == COUNT[16] && (COUNT + s)[34] == COUNT[34];
    assert (ALERT + s)[4] == ALERT[4];
  }

  lemma DecimalsHasNoQuote(n: int)
    ensures '"' !in Decimals(n) && '\n' !in Decimals(n)
  {}

  lemma CounterFacts(k: RequestKey, n: nat)
    ensures ReadCounter(CounterLine(k, n)) == Some((k, n))
    ensures ReadBucket(CounterLine(k, n)).None?
  {
    DecimalsHasNoQuote(k.status);
    SampleReads(COUNTER, STATUS, k.route, Decimals(k.status), n);
    ParseDecimals(k.status);
    PrefixesDiffer(CounterLine(k, n)[|COUNTER|..]);
    NoSampleElsewhere(CounterLine(k, n), BUCKET, LE);
  }

  lemma BucketFacts(r: Route, i: nat, n: nat)
    requires i < |LABELS|
    ensures ReadBucket(BucketLine(r, LABELS[i], n)) == Some((LeKey(r, LABELS[i]), n))
    ensures ReadCounter(BucketLine(r, LABELS[i], n)).None?
  {
    assert '"' !in LABELS[i];
    SampleReads(BUCKET, LE, r, LABELS[i], n);
    PrefixesDiffer(BucketLine(r, LABELS[i], n)[|BUCKET|..]);
    NoSampleElsewhere(BucketLine(r, LABELS[i], n), COUNTER, STATUS);
  }

  lemma LinesHaveNoBreak(k: RequestKey, r: Route, i: nat, status: string, sum: string, n: nat)
    requires i < |LABELS| && '\n' !in sum
    ensures '\n' !in CounterLine(k, n) && '\n' !in BucketLine(r, LABELS[i], n)
    ensures '\n' !in SumLine(r, sum) && '\n' !in CountLine(r, n) && '\n' !in AlertLine(status, n)
  {
    LiteralsAreOneLine();
    DecimalsHasNoQuote(k.status);
    ReadEscaped(k.route.verb, "");
    ReadEscaped(k.route.path, "");
    ReadEscaped(r.verb, "");
    ReadEscaped(r.path, "");
    ReadEscaped(status, "");
    assert '\n' !in LABELS[i];
    assert '\n' !in RouteLabels(r);
  }

  lemma SumAndCountArePlain(r: Route, sum: string, n: nat)
    requires '\n' !in sum
    ensures Plain(SumLine(r, sum)) && Plain(CountLine(r, n))
  {
    PrefixesDiffer(RouteLabels(r) + (VALUE + sum));
    PrefixesDiffer(RouteLabels(r) + (VALUE + Decimal(n)));
    LinesHaveNoBreak(RequestKey(r, 0), r, 0, "", sum, n);
  }

  lemma AlertIsPlain(status: string, n: nat)
    ensures Plain(AlertLine(status, n))
  {
    PrefixesDiffer(Escape(status) + "\"" + (VALUE + Decimal(n)));
    LinesHaveNoBreak(RequestKey(Route("", ""), 0), Route("", ""), 0, status, "", n);
  }

  ghost predicate TidyFamily(f: Family) {
    OneLine(f.name) && OneLine(f.help) && OneLine(f.kind)
  }

  /** `OneLine`, character by character. */
  ghost predicate Unbroken(s: string) {
    forall i :: 0 <= i < |s| ==> s[i] != '\n'
  }

  lemma FamilyIsTidy(f: Family)
    requires Unbroken(f.name) && Unbroken(f.help) && Unbroken(f.kind)
    ensures TidyFamily(f)
  {}

  lemma KindsAreUnbroken()
    ensures Unbroken("counter") && Unbroken("gauge") && Unbroken("histogram")
  {}

  lemma CommentsArePlain(f: Family, l: string)
    requires TidyFamily(f) && l in Comments(f)
    ensures Plain(l)
  {
    assert COUNTER[0] == 's' && BUCKET[0] == 's';
    assert l[0] == '#';
  }

  /** A name that neither the request counter nor the buckets can have. */
  ghost predicate OtherName(name: string) {
    |name| > 18 && (name[4] != 'h' || (name[16] == 's' && name[18] == 'i'))
  }

  ghost predicate GaugeFamily(f: Family) {
    Unbroken(f.name) && Unbroken(f.help) && OtherName(f.name)
  }

  lemma InProgressTexts()
    ensures GaugeFamily(IN_PROGRESS)
  {}

  lemma StartTexts()
    ensures GaugeFamily(START)
  {}

  lemma WebsocketsTexts()
    ensures GaugeFamily(WEBSOCKETS)
  {}

  lemma DashboardTexts()
    ensures GaugeFamily(DASHBOARD)
  {}

  lemma TransportTexts()
    ensures GaugeFamily(TRANSPORT)
  {}

  lemma GaugesAreTidy(i: nat)
    requires i < |GAUGES|
    ensures TidyFamily(GAUGES[i]) && OtherName(GAUGES[i].name)
  {
    InProgressTexts();
    StartTexts();
    WebsocketsTexts();
    DashboardTexts();
    TransportTexts();
    KindsAreUnbroken();
    assert GAUGES[i].kind == "gauge" || GAUGES[i].kind == "counter";
    FamilyIsTidy(GAUGES[i]);
  }

  lemma {:induction false} GaugeLinesArePlain(values: seq<string>, n: nat, l: string)
    requires n <= |GAUGES| == |values| && forall i :: 0 <= i < |values| ==> OneLine(values[i])
    requires l in GaugeLines(values, n)
    ensures Plain(l)
  {
    if l in GaugeLines(values, n - 1) {
      GaugeLinesArePlain(values, n - 1, l);
    } else {
      GaugesAreTidy(n - 1);
      if l in Comments(GAUGES[n - 1]) {
        CommentsArePlain(GAUGES[n - 1], l);
      } else {
        ValueLineIsPlain(GAUGES[n - 1], values[n - 1], l);
      }
    }
  }

  lemma ValueLineIsPlain(f: Family, value: string, l: string)
    requires TidyFamily(f) && OtherName(f.name) && OneLine(value) && l == f.name + " " + value
    ensures Plain(l)
  {
    assert l[4] == f.name[4] && l[16] == f.name[16] && l[18] == f.name[18];
    assert COUNTER[4] == 'h' && COUNTER[18] == 't';
    assert BUCKET[4] == FAMILY[4] == 'h' && BUCKET[16] == FAMILY[16] == '_';
  }

  lemma HeadsArePlain(f: Family, l: string)
    requires f in {REQUESTS, DURATIONS, EVENTS} && l in Comments(f)
    ensures Plain(l)
  {
    LiteralsAreOneLine();
    KindsAreUnbroken();
    assert Unbroken(REQUESTS.name) && Unbroken(REQUESTS.help);
    assert Unbroken(EVENTS.name) && Unbroken(EVENTS.help);
    assert Unbroken(DURATIONS.help);
    FamilyIsTidy(f);
    CommentsArePlain(f, l);
  }

  lemma GaugesArePlain(s: Snapshot, start: string, l: string)
    requires OneLine(start) && l in Gauges(s, start)
    ensures Plain(l)
  {
    if l in Comments(EVENTS) {
      HeadsArePlain(EVENTS, l);
    } else {
      GaugeLinesArePlain(GaugeValues(s, start), |GAUGES|, l);
    }
  }

  // Which lines each part contributes.

  lemma {:induction false} BucketMembers(s: Snapshot, r: Route, n: nat, l: string)
    requires r in s.durationCount && n <= |LABELS|
    ensures l in BucketLines(s, r, n) <==> exists i :: 0 <= i < n && l == BucketLine(r, LABELS[i], BucketValue(s, r, i))
  {
    if n > 0 { BucketMembers(s, r, n - 1, l); }
  }

  lemma {:induction false} BlockIsThere(s: Snapshot, routes: seq<Route>, n: nat, fixed: real -> string, i: nat,
                                        l: string)
    requires i < n <= |routes| && forall r :: r in routes ==> r in s.durationCount && r in s.durationSum
    requires l in Block(s, routes[i], fixed)
    ensures l in Blocks(s, routes, n, fixed)
  {
    var front, last := Blocks(s, routes, n - 1, fixed), Block(s, routes[n - 1], fixed);
    if i < n - 1 { BlockIsThere(s, routes, n - 1, fixed, i, l); }
    InEither(front, last, l);
  }

  lemma InEither(a: seq<string>, b: seq<string>, l: string)
    ensures l in a + b <==> l in a || l in b
  {}

  lemma CounterMembers(keys: seq<RequestKey>, m: map<RequestKey, nat>, l: string)
    requires forall k :: k in keys <==> k in m
    ensures l in CounterLines(keys, |keys|, m) <==> exists k :: k in m && l == CounterLine(k, m[k])
  {
    EachMembers(keys, |keys|, (k: RequestKey) => CounterLine(k, Get(m, k)), l);
    if l in CounterLines(keys, |keys|, m) {
      var i :| 0 <= i < |keys| && l == CounterLine(keys[i], Get(m, keys[i]));
      assert keys[i] in m;
    }
    forall k | k in m && l == CounterLine(k, m[k]) ensures l in CounterLines(keys, |keys|, m) {
      var i :| 0 <= i < |keys| && keys[i] == k;
    }
  }

  lemma AlertsArePlain(keys: seq<string>, m: map<string, nat>, l: string)
    requires l in AlertLines(keys, |keys|, m)
    ensures Plain(l)
  {
    EachMembers(keys, |keys|, (k: string) => AlertLine(k, Get(m, k)), l);
    var i :| 0 <= i < |keys| && l == AlertLine(keys[i], Get(m, keys[i]));
    AlertIsPlain(keys[i], Get(m, keys[i]));
  }

  lemma {:induction false} BlocksKinds(s: Snapshot, routes: seq<Route>, n: nat, fixed: real -> string, l: string)
    requires n <= |routes| && forall r :: r in routes ==> r in s.durationCount && r in s.durationSum
    requires forall r :: r in routes ==> OneLine(fixed(s.durationSum[r]))
    requires l in Blocks(s, routes, n, fixed)
    ensures IsBucket(s, l) || Plain(l)
  {
    if l in Blocks(s, routes, n - 1, fixed) {
      BlocksKinds(s, routes, n - 1, fixed, l);
    } else {
      BlockKinds(s, routes[n - 1], fixed, l);
    }
  }

  lemma FixedIsOneLine(y: Layout, x: real)
    requires Printable(y)
    ensures OneLine(y.fixed(x))
  {}

  lemma LaidBlocks(s: Snapshot, y: Layout, l: string)
    requires Consistent(s) && Lays(y, s) && Printable(y)
    requires l in Blocks(s, y.routes, |y.routes|, y.fixed)
    ensures IsBucket(s, l) || Plain(l)
  {
    forall r | r in y.routes ensures OneLine(y.fixed(s.durationSum[r])) {
      FixedIsOneLine(y, s.durationSum[r]);
    }
    BlocksKinds(s, y.routes, |y.routes|, y.fixed, l);
  }

  lemma LaidCounters(s: Snapshot, y: Layout, l: string)
    requires Lays(y, s) && l in CounterLines(y.keys, |y.keys|, s.requests)
    ensures IsCounter(s, l)
  {
    CounterMembers(y.keys, s.requests, l);
  }

  /** Every line of a render is a counter, a bucket, or of no interest to the two readers. */
  lemma {:induction false} LineKinds(s: Snapshot, y: Layout, l: string)
    requires Consistent(s) && Lays(y, s) && Printable(y)
    requires l in Lines(s, y)
    ensures IsCounter(s, l) || IsBucket(s, l) || Plain(l)
  {
    if l in CounterLines(y.keys, |y.keys|, s.requests) {
      LaidCounters(s, y, l);
    } else if l in Blocks(s, y.routes, |y.routes|, y.fixed) {
      LaidBlocks(s, y, l);
    } else if l in Gauges(s, y.start) {
      GaugesArePlain(s, y.start, l);
    } else if l in AlertLines(y.statuses, |y.statuses|, s.alerts) {
      AlertsArePlain(y.statuses, s.alerts, l);
    } else {
      HeadsArePlain(if l in Comments(REQUESTS) then REQUESTS else DURATIONS, l);
    }
  }

  lemma BlockKinds(s: Snapshot, r: Route, fixed: real -> string, l: string)
    requires r in s.durationCount && r in s.durationSum && l in Block(s, r, fixed) && OneLine(fixed(s.durationSum[r]))
    ensures IsBucket(s, l) || Plain(l)
  {
    if l in BucketLines(s, r, |LABELS|) {
      BucketMembers(s, r, |LABELS|, l);
    } else {
      SumAndCountArePlain(r, fixed(s.durationSum[r]), s.durationCount[r]);
    }
  }

  /** And every counter and every bucket of the snapshot has its line. */
  lemma CountersHaveLines(s: Snapshot, y: Layout, k: RequestKey)
    requires Consistent(s) && Lays(y, s) && k in s.requests
    ensures CounterLine(k, s.requests[k]) in Lines(s, y)
  {
    CounterMembers(y.keys, s.requests, CounterLine(k, s.requests[k]));
  }

  lemma BucketsHaveLines(s: Snapshot, y: Layout, r: Route, i: nat)
    requires Consistent(s) && Lays(y, s) && r in s.durationCount && i < |LABELS|
    ensures BucketLine(r, LABELS[i], BucketValue(s, r, i)) in Lines(s, y)
  {
    var l := BucketLine(r, LABELS[i], BucketValue(s, r, i));
    BucketMembers(s, r, |LABELS|, l);
    var n :| 0 <= n < |y.routes| && y.routes[n] == r;
    assert l in Block(s, r, y.fixed);
    BlockIsThere(s, y.routes, |y.routes|, y.fixed, n, l);
  }

  /** A text splits back into its lines, and one empty string behind the final newline. */
  lemma {:induction false} TextSplits(lines: seq<string>)
    requires lines != [] && forall l :: l in lines ==> OneLine(l)
    ensures var text := TextOf(lines); Split(text, '\n', |text|) == lines + [""]
  {
    JoinEnds(lines);
    var parts := lines + [""];
    forall i | 0 <= i < |parts| ensures '\n' !in parts[i] {
      if i < |lines| { assert lines[i] in lines; }
    }
    SplitAll(parts, '\n');
  }

  lemma {:induction false} JoinEnds(lines: seq<string>)
    requires lines != []
    ensures Join(lines + [""], '\n') == Join(lines, '\n') + "\n"
  {
    assert (lines + [""])[1..] == lines[1..] + [""];
    if |lines| > 1 { JoinEnds(lines[1..]); }
  }

  lemma LinesAreOneLine(s: Snapshot, y: Layout)
    requires Consistent(s) && Lays(y, s) && Printable(y)
    ensures forall l :: l in Lines(s, y) ==> OneLine(l)
  {
    forall l | l in Lines(s, y) ensures OneLine(l) {
      LineKinds(s, y, l);
      if IsCounter(s, l) {
        var k :| k in s.requests && l == CounterLine(k, s.requests[k]);
        LinesHaveNoBreak(k, k.route, 0, "", "", s.requests[k]);
      } else if IsBucket(s, l) {
        var r, i :| r in s.durationCount && 0 <= i < |LABELS| && l == BucketLine(r, LABELS[i], BucketValue(s, r, i));
        LinesHaveNoBreak(RequestKey(r, 0), r, i, "", "", BucketValue(s, r, i));
      }
    }
  }

  /** What is read from a line is what the maps hold. */
  ghost predicate ReadsTrue(s: Snapshot, l: string) {
    && (ReadCounter(l).Some? ==>
          ReadCounter(l).value.0 in CounterMap(s) && CounterMap(s)[ReadCounter(l).value.0] == ReadCounter(l).value.1)
    && (ReadBucket(l).Some? ==>
          ReadBucket(l).value.0 in BucketMap(s) && BucketMap(s)[ReadBucket(l).value.0] == ReadBucket(l).value.1)
  }

  lemma CounterReadsTrue(s: Snapshot, l: string)
    requires IsCounter(s, l)
    ensures ReadsTrue(s, l)
  {
    var k :| k in s.requests && l == CounterLine(k, s.requests[k]);
    CounterFacts(k, s.requests[k]);
  }

  lemma BucketReadsTrue(s: Snapshot, l: string)
    requires IsBucket(s, l)
    ensures ReadsTrue(s, l)
  {
    var r, i :| r in s.durationCount && 0 <= i < |LABELS| && l == BucketLine(r, LABELS[i], BucketValue(s, r, i));
    BucketFacts(r, i, BucketValue(s, r, i));
    InBucketMap(s, r, i);
  }

  lemma PlainReadsTrue(s: Snapshot, l: string)
    requires Plain(l)
    ensures ReadsTrue(s, l)
  {
    NoSampleElsewhere(l, COUNTER, STATUS);
    NoSampleElsewhere(l, BUCKET, LE);
  }

  lemma InBucketMap(s: Snapshot, r: Route, i: nat)
    requires r in s.durationCount && i < |LABELS|
    ensures LeKey(r, LABELS[i]) in BucketMap(s) && BucketMap(s)[LeKey(r, LABELS[i])] == BucketValue(s, r, i)
  {
    var j := IndexOf(LABELS[i]);
    if j < i { LabelsDiffer(j, i); } else if i < j { LabelsDiffer(i, j); }
  }

  lemma LineOrNothing(s: Snapshot, y: Layout, l: string)
    requires Consistent(s) && Lays(y, s) && Printable(y) && l in Lines(s, y) + [""]
    ensures ReadsTrue(s, l)
  {
    if l == "" {
      PlainReadsTrue(s, l);
    } else {
      LineKinds(s, y, l);
      if IsCounter(s, l) { CounterReadsTrue(s, l); }
      else if IsBucket(s, l) { BucketReadsTrue(s, l); }
      else { PlainReadsTrue(s, l); }
    }
  }

  lemma CounterHasKey(s: Snapshot, y: Layout, k: RequestKey)
    requires Consistent(s) && Lays(y, s) && k in s.requests
    ensures Mentions(Lines(s, y) + [""], ReadCounter, k)
  {
    var l := CounterLine(k, s.requests[k]);
    CountersHaveLines(s, y, k);
    CounterFacts(k, s.requests[k]);
    assert l in Lines(s, y) + [""];
  }

  lemma BucketHasKey(s: Snapshot, y: Layout, k: LeKey)
    requires Consistent(s) && Lays(y, s) && k in BucketMap(s)
    ensures Mentions(Lines(s, y) + [""], ReadBucket, k)
  {
    var i := IndexOf(k.le);
    var l := BucketLine(k.route, LABELS[i], BucketValue(s, k.route, i));
    BucketsHaveLines(s, y, k.route, i);
    BucketFacts(k.route, i, BucketValue(s, k.route, i));
    assert l in Lines(s, y) + [""];
  }

  lemma CountersReadBack(s: Snapshot, y: Layout)
    requires Consistent(s) && Lays(y, s) && Printable(y)
    ensures Collect(Lines(s, y) + [""], ReadCounter) == CounterMap(s)
  {
    var lines := Lines(s, y) + [""];
    forall l | l in lines && ReadCounter(l).Some?
      ensures ReadCounter(l).value.0 in CounterMap(s) && CounterMap(s)[ReadCounter(l).value.0] == ReadCounter(l).value.1
    {
      LineOrNothing(s, y, l);
    }
    forall k | k in CounterMap(s) ensures Mentions(lines, ReadCounter, k) { CounterHasKey(s, y, k); }
    CollectsAll(lines, ReadCounter, CounterMap(s));
  }

  lemma BucketsReadBack(s: Snapshot, y: Layout)
    requires Consistent(s) && Lays(y, s) && Printable(y)
    ensures Collect(Lines(s, y) + [""], ReadBucket) == BucketMap(s)
  {
    var lines := Lines(s, y) + [""];
    forall l | l in lines && ReadBucket(l).Some?
      ensures ReadBucket(l).value.0 in BucketMap(s) && BucketMap(s)[ReadBucket(l).value.0] == ReadBucket(l).value.1
    {
      LineOrNothing(s, y, l);
    }
    forall k | k in BucketMap(s) ensures Mentions(lines, ReadBucket, k) { BucketHasKey(s, y, k); }
    CollectsAll(lines, ReadBucket, BucketMap(s));
  }

  /** Reading the rendered text gives back the request counters and all bucket counts. */
  lemma {:induction false} RenderReadsBack(s: Snapshot, y: Layout)
    requires Consistent(s) && Lays(y, s) && Printable(y)
    ensures var text := TextOf(Lines(s, y)); var lines := Split(text, '\n', |text|);
      && Collect(lines, ReadCounter) == CounterMap(s)
      && Collect(lines, ReadBucket) == BucketMap(s)
  {
    LinesAreOneLine(s, y);
    TextSplits(Lines(s, y));
    CountersReadBack(s, y);
    BucketsReadBack(s, y);
  }
}
