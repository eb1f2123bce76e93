/**
  The request-body limiter as an ASGI step machine. The wrapped application is arbitrary:
  a run is any script of receives and sends, going on after a limit exception if the
  application swallows it, and ending in a return or in an exception.
 */
module BodyLimit {

  import opened Options

  type Bytes = seq<bv8>

  /** What the server hands to `receive`. */
  datatype Message = Request(body: Bytes, more: bool) | Disconnect

  /** What goes to `send`. */
  datatype Reply = Start(status: int) | Body(body: Bytes)

  /** One await of the application; `arrives` tells whether the server's send succeeds. */
  datatype Action = Receive | Send(reply: Reply, arrives: bool)

  datatype Ending = Returns | RaisesLimit | RaisesOther

  datatype ContentLength = Absent | NotAnInteger | Declared(length: int)

  datatype Scope = Http(contentLength: ContentLength) | NotHttp

  /** What one call of the middleware sees and does. */
  datatype State = State(
    consumed: nat,           // the nonlocal byte counter
    started: bool,           // the nonlocal response_started
    pulled: nat,             // messages taken from the server
    handed: seq<Message>,    // messages the application received
    sent: seq<Reply>)        // replies that reached the client

  const INITIAL := State(0, false, 0, [], [])

  type Stream = nat -> Message

  function Size(m: Message): nat {
    if m.Request? then |m.body| else 0
  }

  /** Body bytes among the first n messages. */
  function Total(stream: Stream, n: nat): nat {
    if n == 0 then 0 else Total(stream, n - 1) + Size(stream(n - 1))
  }

  function BytesOf(messages: seq<Message>): nat {
    if messages == [] then 0 else BytesOf(messages[..|messages| - 1]) + Size(messages[|messages| - 1])
  }

  function Starts(replies: seq<Reply>): nat {
    if replies == [] then 0 else
      Starts(replies[..|replies| - 1]) + if replies[|replies| - 1].Start? then 1 else 0
  }

  // ---------------------------------------------------------------- the wrapped application

  /** `limited_receive`: None is the limit exception. */
  function Receiving(max: int, stream: Stream, st: State): (State, Option<Message>) {
    var m := stream(st.pulled);
    var consumed := st.consumed + Size(m);
    var st' := st.(pulled := st.pulled + 1, consumed := consumed);
    if m.Request? && consumed > max then (st', None) else (st'.(handed := st.handed + [m]), Some(m))
  }

  /** `tracked_send`: the flag is set before the send is awaited. */
  function Sending(st: State, reply: Reply, arrives: bool): State {
    st.(started := st.started || reply.Start?, sent := if arrives then st.sent + [reply] else st.sent)
  }

  function Step(max: int, stream: Stream, st: State, a: Action): State {
    match a
    case Receive => Receiving(max, stream, st).0
    case Send(reply, arrives) => Sending(st, reply, arrives)
  }

  function Run(max: int, stream: Stream, script: seq<Action>): State {
    if script == [] then INITIAL else
      Step(max, stream, Run(max, stream, script[..|script| - 1]), script[|script| - 1])
  }

  /** The same script without the middleware. */
  datatype Bare = Bare(pulled: nat, handed: seq<Message>, sent: seq<Reply>)

  function BareRun(stream: Stream, script: seq<Action>): Bare {
    if script == [] then Bare(0, [], []) else
      var b := BareRun(stream, script[..|script| - 1]);
      match script[|script| - 1]
      case Receive => b.(pulled := b.pulled + 1, handed := b.handed + [stream(b.pulled)])
      case Send(reply, arrives) => b.(sent := if arrives then b.sent + [reply] else b.sent)
  }

  datatype Outcome = Completed | LimitEscapes | OtherEscapes

  /** How one call ends, how many messages it took from the server, and what reached both ends. */
  datatype Call = Call(outcome: Outcome, pulled: nat, handed: seq<Message>, sent: seq<Reply>)

  /** A JSON error response; `page` gives its body. */
  function ErrorReply(page: int -> Bytes, status: int): seq<Reply> {
    [Start(status), Body(page(status))]
  }

  function Ended(ending: Ending): Outcome {
    match ending case Returns => Completed case RaisesLimit => LimitEscapes case RaisesOther => OtherEscapes
  }

  predicate Admitted(scope: Scope, max: int) {
    scope.Http? && (scope.contentLength.Absent? ||
                    (scope.contentLength.Declared? && 0 <= scope.contentLength.length <= max))
  }

  /** The application called directly. */
  function BareCall(stream: Stream, script: seq<Action>, ending: Ending): Call {
    var b := BareRun(stream, script);
    Call(Ended(ending), b.pulled, b.handed, b.sent)
  }

  /** One call of the middleware, for any behaviour of server and application. */
  function Serve(scope: Scope, max: int, page: int -> Bytes, stream: Stream, script: seq<Action>,
                 ending: Ending): Call {
    if scope.NotHttp? then BareCall(stream, script, ending)
    else if scope.contentLength.NotAnInteger? || (scope.contentLength.Declared? && scope.contentLength.length < 0) then
      Call(Completed, 0, [], ErrorReply(page, 400))
    else if scope.contentLength.Declared? && scope.contentLength.length > max then
      Call(Completed, 0, [], ErrorReply(page, 413))
    else
      var st := Run(max, stream, script);
      if ending.RaisesLimit? && !st.started then Call(Completed, st.pulled, st.handed, st.sent + ErrorReply(page, 413))
      else Call(Ended(ending), st.pulled, st.handed, st.sent)
  }

  // ---------------------------------------------------------------- what a run looks like

  function Receives(script: seq<Action>): nat {
    if script == [] then 0 else
      Receives(script[..|script| - 1]) + if script[|script| - 1].Receive? then 1 else 0
  }

  function StartsTried(script: seq<Action>): nat {
    if script == [] then 0 else
      StartsTried(script[..|script| - 1]) +
      if script[|script| - 1].Send? && script[|script| - 1].reply.Start? then 1 else 0
  }

  /** Message i passes iff it is no request body, or the bytes up to and with it are in the limit. */
  predicate Passes(max: int, stream: Stream, i: nat) {
    !stream(i).Request? || Total(stream, i + 1) <= max
  }

  function Passing(max: int, stream: Stream, n: nat): seq<Message> {
    if n == 0 then [] else
      Passing(max, stream, n - 1) + if Passes(max, stream, n - 1) then [stream(n - 1)] else []
  }

  lemma {:induction false} RunReceives(max: int, stream: Stream, script: seq<Action>)
    ensures var st := Run(max, stream, script);
      && st.pulled == Receives(script) == BareRun(stream, script).pulled
      && st.consumed == Total(stream, st.pulled)
      && st.handed == Passing(max, stream, st.pulled)
  {
    if script != [] {
      RunReceives(max, stream, script[..|script| - 1]);
    }
  }

  lemma {:induction false} RunSends(max: int, stream: Stream, script: seq<Action>)
    ensures var st := Run(max, stream, script);
      && st.sent == BareRun(stream, script).sent
      && (st.started <==> StartsTried(script) > 0)
      && Starts(st.sent) <= StartsTried(script)
  {
    if script != [] {
      RunSends(max, stream, script[..|script| - 1]);
      var sent := Run(max, stream, script[..|script| - 1]).sent;
      var last := script[|script| - 1];
      if last.Send? {
        assert (sent + [last.reply])[..|sent|] == sent;
      }
    }
  }

  /** The application receives exactly the passing messages, also after it swallowed a limit
      exception, and the client gets exactly what the application sent. */
  lemma {:induction false} RunMeaning(max: int, stream: Stream, script: seq<Action>)
    ensures var st := Run(max, stream, script);
      && st.pulled == Receives(script) == BareRun(stream, script).pulled
      && st.consumed == Total(stream, st.pulled)
      && st.handed == Passing(max, stream, st.pulled)
      && st.sent == BareRun(stream, script).sent
      && (st.started <==> StartsTried(script) > 0)
      && Starts(st.sent) <= StartsTried(script)
  {
    RunReceives(max, stream, script);
    RunSends(max, stream, script);
  }

  lemma {:induction false} PassingBytes(max: int, stream: Stream, n: nat)
    ensures BytesOf(Passing(max, stream, n)) <= Total(stream, n)
    ensures BytesOf(Passing(max, stream, n)) <= max || BytesOf(Passing(max, stream, n)) == 0
  {
    if n > 0 {
      PassingBytes(max, stream, n - 1);
      var front := Passing(max, stream, n - 1);
      var next := Passing(max, stream, n);
      assert Total(stream, n) == Total(stream, n - 1) + Size(stream(n - 1));
      if Passes(max, stream, n - 1) {
        assert next[..|next| - 1] == front && next[|next| - 1] == stream(n - 1);
      } else {
        assert next == front;
      }
    }
  }

  /** At every prefix of every run of every application, the body bytes handed over stay within
      the limit, whatever length was declared. */
  lemma BodyBound(max: int, stream: Stream, script: seq<Action>, i: nat)
    requires i <= |script|
    ensures BytesOf(Run(max, stream, script[..i]).handed) <= if max >= 0 then max else 0
  {
    RunMeaning(max, stream, script[..i]);
    PassingBytes(max, stream, Receives(script[..i]));
  }

  lemma ServedBodyBound(scope: Scope, max: int, page: int -> Bytes, stream: Stream, script: seq<Action>, ending: Ending)
    requires scope.Http?
    ensures BytesOf(Serve(scope, max, page, stream, script, ending).handed) <= if max >= 0 then max else 0
  {
    assert script[..|script|] == script;
    BodyBound(max, stream, script, |script|);
  }

  // ---------------------------------------------------------------- responses

  lemma {:induction false} StartsAppend(a: seq<Reply>, b: seq<Reply>)
    ensures Starts(a + b) == Starts(a) + Starts(b)
  {
    if b == [] {
      assert a + b == a;
    } else {
      StartsAppend(a, b[..|b| - 1]);
      assert (a + b)[..|a + b| - 1] == a + b[..|b| - 1];
    }
  }

  lemma ErrorReplyStarts(page: int -> Bytes, status: int)
    ensures Starts(ErrorReply(page, status)) == 1
  {
    assert ErrorReply(page, status)[..1] == [Start(status)];
    assert Starts([Start(status)]) == 1;
  }

  /** If the application starts at most one response, the client sees at most one start; a limit
      exception escaping before any start is answered by exactly one 413, and one escaping
      afterwards propagates and adds nothing. */
  lemma {:induction false} OneResponse(scope: Scope, max: int, page: int -> Bytes, stream: Stream, script: seq<Action>,
                                       ending: Ending)
    requires StartsTried(script) <= 1
    ensures var c := Serve(scope, max, page, stream, script, ending);
      && Starts(c.sent) <= 1
      && (Admitted(scope, max) && ending.RaisesLimit? && StartsTried(script) == 0 ==>
            c.outcome.Completed? && Starts(c.sent) == 1 &&
            c.sent == BareRun(stream, script).sent + ErrorReply(page, 413))
      && (Admitted(scope, max) && ending.RaisesLimit? && StartsTried(script) == 1 ==>
            c.outcome.LimitEscapes? && c.sent == BareRun(stream, script).sent)
      && (Admitted(scope, max) && !ending.RaisesLimit? ==>
            c.outcome == Ended(ending) && c.sent == BareRun(stream, script).sent)
      && (scope.Http? && !Admitted(scope, max) ==> c.handed == [] && Starts(c.sent) == 1)
  {
    RunMeaning(max, stream, script);
    var st := Run(max, stream, script);
    ErrorReplyStarts(page, 400);
    ErrorReplyStarts(page, 413);
    StartsAppend(st.sent, ErrorReply(page, 413));
  }

  /** Called directly, the application gets the first messages of the server, in order. */
  lemma {:induction false} BareReceives(stream: Stream, script: seq<Action>)
    ensures BareRun(stream, script).pulled == |BareRun(stream, script).handed| == Receives(script)
    ensures forall i :: 0 <= i < Receives(script) ==> BareRun(stream, script).handed[i] == stream(i)
  {
    if script != [] { BareReceives(stream, script[..|script| - 1]); }
  }

  /** And the client gets exactly the replies whose send succeeded, in order. */
  lemma {:induction false} BareSends(stream: Stream, script: seq<Action>, n: nat)
    requires n < |script|
    ensures var sent, at := BareRun(stream, script).sent, |BareRun(stream, script[..n]).sent|;
      && at <= |BareRun(stream, script[..n + 1]).sent| <= |sent|
      && (script[n].Send? && script[n].arrives ==>
            at < |sent| && sent[at] == script[n].reply && |BareRun(stream, script[..n + 1]).sent| == at + 1)
      && (script[n].Receive? || !script[n].arrives ==> |BareRun(stream, script[..n + 1]).sent| == at)
  {
    var front := script[..|script| - 1];
    if n == |script| - 1 {
      assert script[..n] == front && script[..n + 1] == script;
    } else {
      BareSends(stream, front, n);
      assert front[..n] == script[..n] && front[..n + 1] == script[..n + 1];
    }
  }

  /** Which calls are refused before anything is read, and with which status: 400 for a length that
      is no number or negative, 413 for one above the limit. */
  lemma RefusalMeaning(scope: Scope, max: int, page: int -> Bytes, stream: Stream, script: seq<Action>,
                       ending: Ending)
    requires scope.Http?
    ensures var c := Serve(scope, max, page, stream, script, ending);
      && (scope.contentLength.NotAnInteger? ||
          (scope.contentLength.Declared? && scope.contentLength.length < 0) ==>
            c.outcome == Completed && c.pulled == 0 && c.handed == [] && c.sent == [Start(400), Body(page(400))])
      && (scope.contentLength.Declared? && 0 <= scope.contentLength.length && max < scope.contentLength.length ==>
            c.outcome == Completed && c.pulled == 0 && c.handed == [] && c.sent == [Start(413), Body(page(413))])
  {}

  /** How every other call ends: in the outcome of the application, except that a limit exception
      before a start ends in one 413 behind what was sent. */
  lemma EndMeaning(scope: Scope, max: int, page: int -> Bytes, stream: Stream, script: seq<Action>, ending: Ending)
    requires scope == Http(Absent) ||
             (scope.Http? && scope.contentLength.Declared? && 0 <= scope.contentLength.length <= max)
    ensures var c, own := Serve(scope, max, page, stream, script, ending), BareRun(stream, script).sent;
      && c.pulled == Receives(script)
      && (ending.Returns? ==> c.outcome == Completed && c.sent == own)
      && (ending.RaisesOther? ==> c.outcome == OtherEscapes && c.sent == own)
      && (ending.RaisesLimit? && StartsTried(script) > 0 ==> c.outcome == LimitEscapes && c.sent == own)
      && (ending.RaisesLimit? && StartsTried(script) == 0 ==>
            c.outcome == Completed && c.sent == own + [Start(413), Body(page(413))])
  {
    RunMeaning(max, stream, script);
  }

  // ---------------------------------------------------------------- transparency

  lemma {:induction false} TotalGrows(stream: Stream, m: nat, n: nat)
    requires m <= n
    ensures Total(stream, m) <= Total(stream, n)
  {
    if m < n { TotalGrows(stream, m, n - 1); }
  }

  lemma {:induction false} AllPass(max: int, stream: Stream, n: nat)
    requires max >= 0
    ensures |Passing(max, stream, n)| <= n
    ensures |Passing(max, stream, n)| == n <==> Total(stream, n) <= max
  {
    if n > 0 { AllPass(max, stream, n - 1); }
  }

  lemma {:induction false} BareHands(max: int, stream: Stream, script: seq<Action>)
    ensures |BareRun(stream, script).handed| == BareRun(stream, script).pulled
    ensures |Passing(max, stream, BareRun(stream, script).pulled)| == BareRun(stream, script).pulled ==>
              Passing(max, stream, BareRun(stream, script).pulled) == BareRun(stream, script).handed
  {
    if script != [] {
      BareHands(max, stream, script[..|script| - 1]);
      PassingIsShorter(max, stream, BareRun(stream, script[..|script| - 1]).pulled);
    }
  }

  lemma {:induction false} PassingIsShorter(max: int, stream: Stream, n: nat)
    ensures |Passing(max, stream, n)| <= n
  {
    if n > 0 { PassingIsShorter(max, stream, n - 1); }
  }

  /** The middleware is invisible exactly when the body it let through fits. */
  lemma TransparentIffWithinLimit(max: int, stream: Stream, script: seq<Action>)
    requires max >= 0
    ensures var st := Run(max, stream, script); var b := BareRun(stream, script);
            (st.handed == b.handed && st.sent == b.sent) <==> Total(stream, Receives(script)) <= max
  {
    RunMeaning(max, stream, script);
    AllPass(max, stream, Receives(script));
    BareHands(max, stream, script);
  }

  /** An admitted call is the application's own call exactly when the body fits and no limit
      exception escapes before a response was started. */
  lemma ServedTransparently(scope: Scope, max: int, page: int -> Bytes, stream: Stream, script: seq<Action>,
                            ending: Ending)
    requires max >= 0 && Admitted(scope, max)
    ensures Serve(scope, max, page, stream, script, ending) == BareCall(stream, script, ending) <==>
            Total(stream, Receives(script)) <= max && !(ending.RaisesLimit? && StartsTried(script) == 0)
  {
    TransparentIffWithinLimit(max, stream, script);
    RunMeaning(max, stream, script);
  }

  // ---------------------------------------------------------------- the middleware itself

  class Limiter {
    const maxBytes: int
    const stream: Stream
    var consumed: nat
    var responseStarted: bool
    var pulled: nat
    var handed: seq<Message>
    var sent: seq<Reply>

    constructor(maxBytes: int, stream: Stream)
      ensures this.maxBytes == maxBytes && this.stream == stream && Model() == INITIAL
    {
      this.maxBytes, this.stream := maxBytes, stream;
      consumed, responseStarted, pulled, handed, sent := 0, false, 0, [], [];
    }

    function Model(): State
      reads this
    {
      State(consumed, responseStarted, pulled, handed, sent)
    }

    method LimitedReceive() returns (r: Option<Message>)
      modifies this
      ensures (Model(), r) == Receiving(maxBytes, stream, old(Model()))
    {
      var message := stream(pulled);
      pulled := pulled + 1;
      if message.Request? {
        consumed := consumed + |message.body|;
        if consumed > maxBytes { return None; }
      }
      handed := handed + [message];
      return Some(message);
    }

    method TrackedSend(reply: Reply, arrives: bool)
      modifies this
      ensures Model() == Sending(old(Model()), reply, arrives)
    {
      if reply.Start? { responseStarted := true; }
      if arrives { sent := sent + [reply]; }
    }

    /** The application on the server's own `receive` and `send`. */
    method PassThrough(script: seq<Action>)
      requires Model() == INITIAL
      modifies this
      ensures Bare(pulled, handed, sent) == BareRun(stream, script)
    {
      for n := 0 to |script|
        invariant Bare(pulled, handed, sent) == BareRun(stream, script[..n])
      {
        assert script[..n + 1][..n] == script[..n];
        match script[n] {
          case Receive =>
            handed := handed + [stream(pulled)];
            pulled := pulled + 1;
          case Send(reply, arrives) =>
            if arrives { sent := sent + [reply]; }
        }
      }
      assert script[..|script|] == script;
    }

    /** `__call__` on a fresh limiter. */
    method Serving(scope: Scope, page: int -> Bytes, script: seq<Action>, ending: Ending) returns (outcome: Outcome)
      requires Model() == INITIAL
      modifies this
      ensures Call(outcome, pulled, handed, sent) == Serve(scope, maxBytes, page, stream, script, ending)
    {
      if scope.NotHttp? {
        PassThrough(script);
        return Ended(ending);
      }
      match scope.contentLength {
        case Absent =>
        case NotAnInteger =>
          sent := ErrorReply(page, 400);
          return Completed;
        case Declared(length) =>
          if length < 0 {
            sent := ErrorReply(page, 400);
            return Completed;
          }
          if length > maxBytes {
            sent := ErrorReply(page, 413);
            return Completed;
          }
      }
      for n := 0 to |script|
        invariant Model() == Run(maxBytes, stream, script[..n])
      {
        assert script[..n + 1][..n] == script[..n];
        match script[n] {
          case Receive => var _ := LimitedReceive();
          case Send(reply, arrives) => TrackedSend(reply, arrives);
        }
      }
      assert script[..|script|] == script;
      if ending.RaisesLimit? && !responseStarted {
        sent := sent + ErrorReply(page, 413);
        return Completed;
      }
      return Ended(ending);
    }
  }
}
