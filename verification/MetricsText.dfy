/** `render_prometheus`: what the text of a registry says about the requests it has seen. */
module MetricsText {

  import opened Options
  import opened Ordering
  import opened Text
  import opened Labels
  import opened Metrics
  import opened Exposition

  // ---------------------------------------------------------------- the number a label denotes

  function DigitsValue(s: string, acc: nat): Option<nat> {
    if s == "" then Some(acc)
    else if '0' <= s[0] <= '9' then DigitsValue(s[1..], acc * 10 + (s[0] as int - '0' as int))
    else None
  }

  function Scaled(n: Option<nat>, scale: nat): Option<real>
    requires scale > 0
  {
    match n case None => None case Some(v) => Some(v as real / scale as real)
  }

  /** Digits, or digits, a point and digits. */
  function Denoted(le: string): Option<real> {
    match CutAt(le, '.')
    case Whole => if le == "" then None else Scaled(DigitsValue(le, 0), 1)
    case Cut(before, after) =>
      if before == "" || after == "" then None
      else Scaled(DigitsValue(before + after, 0), Power10(|after|))
  }

  lemma WithPoint(before: string, after: string)
    requires before != "" && after != "" && '.' !in before
    ensures Denoted(before + "." + after) ==
            Scaled(DigitsValue(before + after, 0), Power10(|after|))
  {
    CutFinds(before, '.', after);
  }

  lemma TwoPlaces()
    ensures Denoted("0.05") == Some(0.05) && Denoted("0.25") == Some(0.25)
  {
    assert "0.05" == "0" + "." + "05" && "0.25" == "0" + "." + "25";
    WithPoint("0", "05");
    WithPoint("0", "25");
    ThreeDigits("0" + "05");
    ThreeDigits("0" + "25");
    assert Power10(2) == 100;
  }

  lemma OnePlace()
    ensures Denoted("0.1") == Some(0.1) && Denoted("0.5") == Some(0.5) && Denoted("2.5") == Some(2.5)
  {
    assert "0.1" == "0" + "." + "1" && "0.5" == "0" + "." + "5" && "2.5" == "2" + "." + "5";
    WithPoint("0", "1");
    WithPoint("0", "5");
    WithPoint("2", "5");
    TwoDigits("0" + "1");
    TwoDigits("0" + "5");
    TwoDigits("2" + "5");
    assert Power10(1) == 10;
  }

  lemma NoPlaces()
    ensures Denoted("1") == Some(1.0) && Denoted("5") == Some(5.0)
  {
    CutMeaning("1", '.');
    CutMeaning("5", '.');
    assert "1"[1..] == "" && "5"[1..] == "";
  }

  predicate IsDigit(c: char) { '0' <= c <= '9' }

  function Digit(c: char): nat
    requires IsDigit(c)
  {
    c as int - '0' as int
  }

  lemma OneDigit(s: string, acc: nat)
    requires s != "" && IsDigit(s[0])
    ensures DigitsValue(s, acc) == DigitsValue(s[1..], acc * 10 + Digit(s[0]))
  {}

  lemma TwoDigits(s: string)
    requires |s| == 2 && IsDigit(s[0]) && IsDigit(s[1])
    ensures DigitsValue(s, 0) == Some(Digit(s[0]) * 10 + Digit(s[1]))
  {
    OneDigit(s, 0);
    OneDigit(s[1..], Digit(s[0]));
  }

  lemma ThreeDigits(s: string)
    requires |s| == 3 && IsDigit(s[0]) && IsDigit(s[1]) && IsDigit(s[2])
    ensures DigitsValue(s, 0) == Some((Digit(s[0]) * 10 + Digit(s[1])) * 10 + Digit(s[2]))
  {
    OneDigit(s, 0);
    OneDigit(s[1..], Digit(s[0]));
    OneDigit(s[1..][1..], Digit(s[0]) * 10 + Digit(s[1]));
  }

  /** Every bucket is labelled with the boundary it counts up to. */
  lemma LabelMeaning(i: nat)
    requires i < |LABELS|
    ensures i < 7 ==> Denoted(LABELS[i]) == Some(BUCKETS[i])
    ensures i == 7 <==> LABELS[i] == "+Inf"
    ensures forall le :: le in LABELS <==> le in {"0.05", "0.1", "0.25", "0.5", "1", "2.5", "5", "+Inf"}
  {
    TwoPlaces();
    OnePlace();
    NoPlaces();
    assert LABELS == ["0.05", "0.1", "0.25", "0.5", "1", "2.5", "5", "+Inf"];
    if i < 7 { LabelsDiffer(i, 7); }
  }

  // ---------------------------------------------------------------- what a text shows

  /** The maps that are read back count the requests of the log. */
  lemma ReadCounts(s: Snapshot, log: seq<Observation>)
    requires Describes(s, log)
    ensures forall k: RequestKey :: k in CounterMap(s) <==> CountStatus(log, k) > 0
    ensures forall k :: k in CounterMap(s) ==> CounterMap(s)[k] == CountStatus(log, k)
    ensures forall k: LeKey :: k in BucketMap(s) <==>
              CountRoute(log, k.route) > 0 && k.le in {"0.05", "0.1", "0.25", "0.5", "1", "2.5", "5", "+Inf"}
    ensures forall k :: k in BucketMap(s) && k.le == "+Inf" ==> BucketMap(s)[k] == CountRoute(log, k.route)
    ensures forall k :: k in BucketMap(s) && k.le != "+Inf" ==>
              Denoted(k.le).Some? && BucketMap(s)[k] == CountWithin(log, BucketKey(k.route, Denoted(k.le).value))
  {
    LabelMeaning(0);
    forall k | k in BucketMap(s)
      ensures k.le == "+Inf" ==> BucketMap(s)[k] == CountRoute(log, k.route)
      ensures k.le != "+Inf" ==>
                Denoted(k.le).Some? && BucketMap(s)[k] == CountWithin(log, BucketKey(k.route, Denoted(k.le).value))
    {
      BucketCount(s, log, k);
    }
    forall k: RequestKey ensures k in CounterMap(s) <==> CountStatus(log, k) > 0 {
      assert Get(s.requests, k) == CountStatus(log, k);
    }
    forall k: LeKey
      ensures k in BucketMap(s) <==> CountRoute(log, k.route) > 0 && k.le in LABELS
    {
      assert Get(s.durationCount, k.route) == CountRoute(log, k.route);
      if k.route in s.durationCount && k.le in LABELS { InBucketMap(s, k.route, IndexOf(k.le)); }
    }
  }

  lemma BucketCount(s: Snapshot, log: seq<Observation>, k: LeKey)
    requires Describes(s, log) && k in BucketMap(s)
    ensures k.le == "+Inf" ==> BucketMap(s)[k] == CountRoute(log, k.route)
    ensures k.le != "+Inf" ==>
              Denoted(k.le).Some? && BucketMap(s)[k] == CountWithin(log, BucketKey(k.route, Denoted(k.le).value))
  {
    var i := IndexOf(k.le);
    LabelMeaning(i);
    if i < 7 {
      assert Get(s.durationBuckets, BucketKey(k.route, BUCKETS[i])) == CountWithin(log, BucketKey(k.route, BUCKETS[i]));
    } else {
      assert Get(s.durationCount, k.route) == CountRoute(log, k.route);
    }
  }

  /** The five values without labels each have their line. */
  lemma GaugesAreShown(s: Snapshot, start: string)
    ensures var lines := Gauges(s, start);
      && "sbs_http_requests_in_progress " + Decimal(s.inProgress) in lines
      && "sbs_process_start_time_seconds " + start in lines
      && "sbs_websocket_connections " + Decimal(s.websockets) in lines
      && "sbs_dashboard_events_total " + Decimal(s.dashboardEvents) in lines
      && "sbs_dashboard_transport_ready " + Decimal(s.transportReady) in lines
  {
    var values := GaugeValues(s, start);
    GaugeIsThere(values, |GAUGES|, 0);
    GaugeIsThere(values, |GAUGES|, 1);
    GaugeIsThere(values, |GAUGES|, 2);
    GaugeIsThere(values, |GAUGES|, 3);
    GaugeIsThere(values, |GAUGES|, 4);
    Names();
  }

  lemma Names()
    ensures GAUGES[0].name + " " == "sbs_http_requests_in_progress "
    ensures GAUGES[1].name + " " == "sbs_process_start_time_seconds "
    ensures GAUGES[2].name + " " == "sbs_websocket_connections "
    ensures GAUGES[3].name + " " == "sbs_dashboard_events_total "
    ensures GAUGES[4].name + " " == "sbs_dashboard_transport_ready "
  {}

  lemma {:induction false} GaugeIsThere(values: seq<string>, n: nat, i: nat)
    requires i < n <= |GAUGES| == |values|
    ensures GAUGES[i].name + " " + values[i] in GaugeLines(values, n)
  {
    if i < n - 1 { GaugeIsThere(values, n - 1, i); }
  }

  // ---------------------------------------------------------------- the lines, letter by letter

  lemma InARow(a: string, b: string, q: string, c: string, d: string, e: string, f: string, v: string, n: string)
    ensures a + (b + q + (c + (d + q + (e + (f + q + (v + n)))))) ==
            a + b + (q + c) + d + (q + e) + f + (q + v) + n
  {
    var tail := e + (f + q + (v + n));
    assert tail == e + f + (q + v) + n;
    var middle := c + (d + q + tail);
    assert middle == c + d + (q + e) + f + (q + v) + n;
    assert a + (b + q + middle) == a + b + q + middle;
  }

  lemma InAShortRow(a: string, b: string, q: string, c: string, d: string, v: string, n: string)
    ensures a + (b + q + (c + (d + q)) + (v + n)) == a + b + (q + c) + d + (q + v) + n
  {}

  lemma CounterText(k: RequestKey, n: nat)
    ensures CounterLine(k, n) ==
            "sbs_http_requests_total{method=\"" + Escape(k.route.verb) + "\",path=\"" + Escape(k.route.path) +
            "\",status=\"" + Decimals(k.status) + "\"} " + Decimal(n)
  {
    InARow(COUNTER, Escape(k.route.verb), "\"", PATH, Escape(k.route.path), STATUS, Decimals(k.status), VALUE,
           Decimal(n));
    assert "\"" + PATH == "\",path=\"" && "\"" + STATUS == "\",status=\"" && "\"" + VALUE == "\"} ";
  }

  lemma BucketText(r: Route, le: string, n: nat)
    ensures BucketLine(r, le, n) ==
            "sbs_http_request_duration_seconds_bucket{method=\"" + Escape(r.verb) + "\",path=\"" + Escape(r.path) +
            "\",le=\"" + le + "\"} " + Decimal(n)
  {
    InARow(BUCKET, Escape(r.verb), "\"", PATH, Escape(r.path), LE, le, VALUE, Decimal(n));
    assert "\"" + PATH == "\",path=\"" && "\"" + LE == "\",le=\"" && "\"" + VALUE == "\"} ";
    assert BUCKET == "sbs_http_request_duration_seconds_bucket{method=\"";
  }

  lemma SumText(r: Route, sum: string)
    ensures SumLine(r, sum) ==
            "sbs_http_request_duration_seconds_sum{method=\"" + Escape(r.verb) + "\",path=\"" + Escape(r.path) +
            "\"} " + sum
  {
    InAShortRow(SUM, Escape(r.verb), "\"", PATH, Escape(r.path), VALUE, sum);
    assert "\"" + PATH == "\",path=\"" && "\"" + VALUE == "\"} ";
    assert SUM == "sbs_http_request_duration_seconds_sum{method=\"";
  }

  lemma CountText(r: Route, n: nat)
    ensures CountLine(r, n) ==
            "sbs_http_request_duration_seconds_count{method=\"" + Escape(r.verb) + "\",path=\"" + Escape(r.path) +
            "\"} " + Decimal(n)
  {
    InAShortRow(COUNT, Escape(r.verb), "\"", PATH, Escape(r.path), VALUE, Decimal(n));
    assert "\"" + PATH == "\",path=\"" && "\"" + VALUE == "\"} ";
    assert COUNT == "sbs_http_request_duration_seconds_count{method=\"";
  }

  lemma AlertText(status: string, n: nat)
    ensures AlertLine(status, n) ==
            "sbs_alertmanager_events_total{status=\"" + Escape(status) + "\"} " + Decimal(n)
  {
    assert ALERT + (Escape(status) + "\"" + (VALUE + Decimal(n))) ==
           ALERT + Escape(status) + ("\"" + VALUE) + Decimal(n);
    assert "\"" + VALUE == "\"} ";
  }

  /** Every route has its sum and its count, and every alert status its number of events. */
  lemma OtherLines(s: Snapshot, y: Layout, r: Route, status: string)
    requires Consistent(s) && Lays(y, s)
    ensures r in s.durationCount ==>
              && "sbs_http_request_duration_seconds_sum{method=\"" + Escape(r.verb) + "\",path=\"" + Escape(r.path) +
                 "\"} " + y.fixed(s.durationSum[r]) in Lines(s, y)
              && "sbs_http_request_duration_seconds_count{method=\"" + Escape(r.verb) + "\",path=\"" +
                 Escape(r.path) + "\"} " + Decimal(s.durationCount[r]) in Lines(s, y)
    ensures status in s.alerts ==>
              "sbs_alertmanager_events_total{status=\"" + Escape(status) + "\"} " + Decimal(s.alerts[status]) in
              Lines(s, y)
  {
    if r in s.durationCount {
      SumText(r, y.fixed(s.durationSum[r]));
      CountText(r, s.durationCount[r]);
      RouteIsThere(s, y, r);
    }
    if status in s.alerts {
      AlertText(status, s.alerts[status]);
      AlertIsThere(s, y, status);
    }
  }

  lemma RouteIsThere(s: Snapshot, y: Layout, r: Route)
    requires Consistent(s) && Lays(y, s) && r in s.durationCount
    ensures SumLine(r, y.fixed(s.durationSum[r])) in Lines(s, y) && CountLine(r, s.durationCount[r]) in Lines(s, y)
  {
    var n :| 0 <= n < |y.routes| && y.routes[n] == r;
    BlockIsThere(s, y.routes, |y.routes|, y.fixed, n, SumLine(r, y.fixed(s.durationSum[r])));
    BlockIsThere(s, y.routes, |y.routes|, y.fixed, n, CountLine(r, s.durationCount[r]));
  }

  lemma AlertIsThere(s: Snapshot, y: Layout, status: string)
    requires Consistent(s) && Lays(y, s) && status in s.alerts
    ensures AlertLine(status, s.alerts[status]) in Lines(s, y)
  {
    var i :| 0 <= i < |y.statuses| && y.statuses[i] == status;
    var line := (k: string) => AlertLine(k, Get(s.alerts, k));
    EachMembers(y.statuses, |y.statuses|, line, AlertLine(status, s.alerts[status]));
    assert line(y.statuses[i]) == AlertLine(status, s.alerts[status]);
  }

  /** The frame of every text: what a registry shows that has seen nothing. */
  lemma FrameOfText(s: Snapshot, y: Layout)
    requires Consistent(s) && Lays(y, s) && s.requests == map[] && s.durationSum == map[] && s.alerts == map[]
    ensures Lines(s, y) ==
            ["# HELP " + "sbs_http_requests_total" + " " + "Total HTTP requests.",
             "# TYPE " + "sbs_http_requests_total" + " " + "counter"] +
            ["# HELP " + "sbs_http_request_duration_seconds" + " " + "Request duration in seconds.",
             "# TYPE " + "sbs_http_request_duration_seconds" + " " + "histogram"] +
            (GaugeLines(GaugeValues(s, y.start), 5) +
             ["# HELP " + "sbs_alertmanager_events_total" + " " + "Alertmanager webhook events accepted.",
              "# TYPE " + "sbs_alertmanager_events_total" + " " + "counter"])
  {
    NothingIn(y.keys);
    NothingIn(y.routes);
    NothingIn(y.statuses);
  }

  /** The metrics without labels, in order. */
  lemma FrameOfGauges(s: Snapshot, start: string)
    ensures GaugeLines(GaugeValues(s, start), 5) ==
            ["# HELP " + "sbs_http_requests_in_progress" + " " + "Current in-progress HTTP requests.",
             "# TYPE " + "sbs_http_requests_in_progress" + " " + "gauge",
             "sbs_http_requests_in_progress" + " " + Decimal(s.inProgress)] +
            ["# HELP " + "sbs_process_start_time_seconds" + " " + "Process start time since Unix epoch.",
             "# TYPE " + "sbs_process_start_time_seconds" + " " + "gauge",
             "sbs_process_start_time_seconds" + " " + start] +
            ["# HELP " + "sbs_websocket_connections" + " " + "Current WebSocket connections.",
             "# TYPE " + "sbs_websocket_connections" + " " + "gauge",
             "sbs_websocket_connections" + " " + Decimal(s.websockets)] +
            ["# HELP " + "sbs_dashboard_events_total" + " " + "Dashboard events published by this process.",
             "# TYPE " + "sbs_dashboard_events_total" + " " + "counter",
             "sbs_dashboard_events_total" + " " + Decimal(s.dashboardEvents)] +
            ["# HELP " + "sbs_dashboard_transport_ready" + " " + "Dashboard Redis transport readiness.",
             "# TYPE " + "sbs_dashboard_transport_ready" + " " + "gauge",
             "sbs_dashboard_transport_ready" + " " + Decimal(s.transportReady)]
  {
    GaugeFrame(GaugeValues(s, start));
  }

  lemma NothingIn<T>(s: seq<T>)
    ensures (forall x :: x !in s) ==> s == []
  {
    if s != [] { assert s[0] in s; }
  }

  /** The three lines of a metric without labels. */
  function Three(f: Family, value: string): seq<string> {
    ["# HELP " + f.name + " " + f.help, "# TYPE " + f.name + " " + f.kind, f.name + " " + value]
  }

  lemma GaugeStep(values: seq<string>, n: nat)
    requires |values| == 5 && n < 5
    ensures GaugeLines(values, n + 1) == GaugeLines(values, n) + Three(GAUGES[n], values[n])
    ensures GaugeLines(values, 0) == []
  {}

  lemma GaugeFrame(values: seq<string>)
    requires |values| == 5
    ensures GaugeLines(values, 5) ==
            Three(IN_PROGRESS, values[0]) + Three(START, values[1]) + Three(WEBSOCKETS, values[2]) +
            Three(DASHBOARD, values[3]) + Three(TRANSPORT, values[4])
  {
    GaugeStep(values, 0);
    assert GaugeLines(values, 1) == Three(IN_PROGRESS, values[0]);
    GaugeStep(values, 1);
    GaugeStep(values, 2);
    GaugeStep(values, 3);
    GaugeStep(values, 4);
  }

  /** The order of the lines: by method, then path, then status. */
  lemma LineOrder(a: RequestKey, b: RequestKey)
    ensures KeyLess(a, b) <==>
            if a.route.verb != b.route.verb then StringLess(a.route.verb, b.route.verb)
            else if a.route.path != b.route.path then StringLess(a.route.path, b.route.path)
            else a.status < b.status
    ensures RouteLess(a.route, b.route) <==>
            if a.route.verb != b.route.verb then StringLess(a.route.verb, b.route.verb)
            else StringLess(a.route.path, b.route.path)
  {
    StringsAreOrdered();
  }

  // ---------------------------------------------------------------- the render

  /** `render_prometheus`: the sorted lines of one snapshot. Read back, every counter and every
      bucket says how many requests of the log it stands for. */
  method RenderPrometheus(registry: MetricsRegistry, fixed: real -> string, start: string) returns (text: string)
    requires registry.Valid()
    ensures exists y :: Lays(y, registry.Snap()) && y.fixed == fixed && y.start == start &&
                        text == TextOf(Lines(registry.Snap(), y))
    ensures PrintableFormats(fixed, start) ==>
              var lines := Split(text, '\n', |text|);
              var counters, buckets := Collect(lines, ReadCounter), Collect(lines, ReadBucket);
              && (forall k: RequestKey :: k in counters <==> CountStatus(registry.log, k) > 0)
              && (forall k :: k in counters ==> counters[k] == CountStatus(registry.log, k))
              && (forall k: LeKey :: k in buckets <==>
                    CountRoute(registry.log, k.route) > 0 &&
                    k.le in {"0.05", "0.1", "0.25", "0.5", "1", "2.5", "5", "+Inf"})
              && (forall k :: k in buckets && k.le == "+Inf" ==> buckets[k] == CountRoute(registry.log, k.route))
              && (forall k :: k in buckets && k.le != "+Inf" ==>
                    Denoted(k.le).Some? &&
                    buckets[k] == CountWithin(registry.log, BucketKey(k.route, Denoted(k.le).value)))
    ensures PrintableFormats(fixed, start) ==>
              var lines := Split(text, '\n', |text|);
              && "sbs_http_requests_in_progress " + Decimal(registry.inProgress) in lines
              && "sbs_process_start_time_seconds " + start in lines
              && "sbs_websocket_connections " + Decimal(registry.websockets) in lines
              && "sbs_dashboard_events_total " + Decimal(registry.dashboardEvents) in lines
              && "sbs_dashboard_transport_ready " + Decimal(registry.transportReady) in lines
  {
    var s := registry.Snap();
    ghost var y: Layout;
    text, y := RenderSnapshot(s, fixed, start);
    if PrintableFormats(fixed, start) {
      RenderReadsBack(s, y);
      ReadCounts(s, registry.log);
      GaugesAreRead(s, y);
    }
  }

  lemma GaugesAreRead(s: Snapshot, y: Layout)
    requires Consistent(s) && Lays(y, s) && Printable(y)
    ensures forall l :: l in Gauges(s, y.start) ==>
              l in Split(TextOf(Lines(s, y)), '\n', |TextOf(Lines(s, y))|)
    ensures var lines := Split(TextOf(Lines(s, y)), '\n', |TextOf(Lines(s, y))|);
      && "sbs_http_requests_in_progress " + Decimal(s.inProgress) in lines
      && "sbs_process_start_time_seconds " + y.start in lines
      && "sbs_websocket_connections " + Decimal(s.websockets) in lines
      && "sbs_dashboard_events_total " + Decimal(s.dashboardEvents) in lines
      && "sbs_dashboard_transport_ready " + Decimal(s.transportReady) in lines
  {
    LinesAreOneLine(s, y);
    TextSplits(Lines(s, y));
    GaugesAreShown(s, y.start);
  }
}
