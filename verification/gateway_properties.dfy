/** What one run of `connection_handler` guarantees, stated over the log of
    effects `Gateway.Handle` describes: one response per request whose status
    follows the failure table, the client socket closed exactly once and
    last, the backend channel released whenever it was opened, the body
    forwarded unchanged, and every response framed and sent in full. */
module GatewayProperties {
  import opened CStrings
  import opened Numerals
  import opened RequestParser
  import opened Responses
  import opened Gateway

  // ---------------------------------------------------------------------
  // Reading a log.

  function Occurs(e: Event, x: Event): nat {
    if e == x then 1 else 0
  }

  /** How often an effect occurs in a log. */
  function Count(log: seq<Event>, x: Event): nat {
    if log == [] then 0 else Occurs(log[0], x) + Count(log[1..], x)
  }

  function WrittenBy(e: Event): seq<Response> {
    if e.ClientWrite? then [e.response] else []
  }

  /** The responses written to the client, in order. */
  function Written(log: seq<Event>): seq<Response> {
    if log == [] then [] else WrittenBy(log[0]) + Written(log[1..])
  }

  function SentBy(e: Event): seq<seq<Byte>> {
    if e.BackendSend? then [e.message] else []
  }

  /** The messages handed to the backend, in order. */
  function Sent(log: seq<Event>): seq<seq<Byte>> {
    if log == [] then [] else SentBy(log[0]) + Sent(log[1..])
  }

  /** Reading a log in two parts adds up. */
  lemma {:induction false} LogAppend(a: seq<Event>, b: seq<Event>)
    ensures forall x :: Count(a + b, x) == Count(a, x) + Count(b, x)
    ensures Written(a + b) == Written(a) + Written(b)
    ensures Sent(a + b) == Sent(a) + Sent(b)
  {
    if a == [] {
      assert a + b == b;
    } else {
      assert (a + b)[1..] == a[1..] + b;
      assert (a + b)[0] == a[0];
      LogAppend(a[1..], b);
      var w, m := WrittenBy(a[0]), SentBy(a[0]);
      assert w + (Written(a[1..]) + Written(b)) == (w + Written(a[1..])) + Written(b);
      assert m + (Sent(a[1..]) + Sent(b)) == (m + Sent(a[1..])) + Sent(b);
    }
  }

  /** Reading a log that starts with a given effect. */
  lemma LogCons(e: Event, rest: seq<Event>)
    ensures forall x :: Count([e] + rest, x) == Occurs(e, x) + Count(rest, x)
    ensures Written([e] + rest) == WrittenBy(e) + Written(rest)
    ensures Sent([e] + rest) == SentBy(e) + Sent(rest)
  {
    assert ([e] + rest)[1..] == rest;
  }

  // ---------------------------------------------------------------------
  // The reference table of outcomes.

  /** The step a connection stops at, or the reply it relays. */
  datatype Outcome =
    | Dropped              // read failed or the client sent nothing
    | Preflight            // CORS preflight
    | EmptyBody            // nothing to forward
    | ChannelFailed        // no socket, or no connection
    | SendFailed
    | TimedOut             // receive failed with EAGAIN
    | ReceiveFailed        // receive failed otherwise
    | Relayed(reply: seq<Byte>)

  /** The outcome of a connection, read off the inputs alone. */
  function Classify(read: ReadOutcome, backend: Backend): Outcome {
    if read.ReadFailed? || |read.data| == 0 then Dropped
    else if HasPrefix(read.data, OptionsMethod) then Preflight
    else if |RequestBody(read.data)| == 0 then EmptyBody
    else BackendOutcome(backend)
  }

  /** The outcome once there is a body to forward. */
  function BackendOutcome(backend: Backend): Outcome {
    if !backend.socketCreated || !backend.connected then ChannelFailed
    else if !backend.sendSucceeds then SendFailed
    else match backend.recv
      case RecvFailed(errno) => if errno == EAGAIN then TimedOut else ReceiveFailed
      case Reply(message) => Relayed(ReplyBody(message))
  }

  /** The outcomes that involve the backend at all. */
  predicate ContactsBackend(o: Outcome) {
    !(o.Dropped? || o.Preflight? || o.EmptyBody?)
  }

  /** The HTTP status each outcome is answered with. */
  function StatusFor(o: Outcome): Option<nat> {
    match o
    case Dropped => None
    case Preflight => Some(204)
    case EmptyBody => Some(400)
    case ChannelFailed => Some(500)
    case SendFailed => Some(502)
    case TimedOut => Some(504)
    case ReceiveFailed => Some(502)
    case Relayed(_) => Some(200)
  }

  /** The response each outcome is answered with. */
  function ResponseFor(o: Outcome): Option<Response> {
    match o
    case Dropped => None
    case Preflight => Some(OptionsResponse)
    case EmptyBody => Some(BadRequest)
    case ChannelFailed => Some(InternalServerError)
    case SendFailed => Some(BadGateway)
    case TimedOut => Some(GatewayTimeout)
    case ReceiveFailed => Some(BadGateway)
    case Relayed(reply) => Some(Ok(reply))
  }

  /** The response list the table gives: one response, or none. */
  function Answer(o: Outcome): seq<Response> {
    match ResponseFor(o)
    case None => []
    case Some(r) => [r]
  }

  /** The channel is opened when the backend is involved and a socket could
      be created. */
  predicate OpensChannel(read: ReadOutcome, backend: Backend) {
    ContactsBackend(Classify(read, backend)) && backend.socketCreated
  }

  /** The body goes out when the channel is up. */
  predicate SendsBody(read: ReadOutcome, backend: Backend) {
    OpensChannel(read, backend) && backend.connected && backend.sendSucceeds
  }

  // ---------------------------------------------------------------------
  // Reading the logs of short runs.

  lemma Log1(a: Event)
    ensures forall x :: Count([a], x) == Occurs(a, x)
    ensures Written([a]) == WrittenBy(a) && Sent([a]) == SentBy(a)
  {
    assert [a] == [a] + [];
    LogCons(a, []);
  }

  lemma Log2(a: Event, b: Event)
    ensures forall x :: Count([a, b], x) == Occurs(a, x) + Occurs(b, x)
    ensures Written([a, b]) == WrittenBy(a) + WrittenBy(b)
    ensures Sent([a, b]) == SentBy(a) + SentBy(b)
  {
    assert [a, b] == [a] + [b];
    LogCons(a, [b]);
    Log1(b);
  }

  // ---------------------------------------------------------------------
  // The handler meets the table.

  lemma AfterSendLog(recv: RecvOutcome)
    ensures var log := AfterSend(recv);
      Written(log) == [log[0].response] && Sent(log) == [] &&
      Count(log, SocketOpen) == 0 && Count(log, SocketClose) == 1 && Count(log, ClientClose) == 1
  {
    var log := AfterSend(recv);
    assert log == [log[0]] + [SocketClose, ClientClose];
    LogCons(log[0], [SocketClose, ClientClose]);
    Log2(SocketClose, ClientClose);
  }

  /** From the channel on, the handler writes the table's response, sends
      the body once the channel is up, and closes the channel once when it
      opened one. */
  lemma ExchangeLog(body: seq<Byte>, backend: Backend)
    requires |body| > 0
    ensures var log := Exchange(body, backend);
      var channel := if backend.socketCreated then 1 else 0;
      var up := backend.socketCreated && backend.connected && backend.sendSucceeds;
      Written(log) == Answer(BackendOutcome(backend)) &&
      Sent(log) == (if up then [body] else []) &&
      Count(log, SocketOpen) == channel && Count(log, SocketClose) == channel &&
      Count(log, ClientClose) == 1
  {
    if !backend.socketCreated {
      NoSocketLog(body, backend);
      assert Answer(BackendOutcome(backend)) == [InternalServerError];
    } else if !(backend.connected && backend.sendSucceeds) {
      ClosedEarlyLog(body, backend);
      assert Answer(BackendOutcome(backend)) ==
        [if backend.connected then BadGateway else InternalServerError];
    } else {
      ExchangedLog(body, backend);
      AfterSendAnswer(backend);
    }
  }

  /** The response written after the send is the one the table gives. */
  lemma AfterSendAnswer(backend: Backend)
    requires backend.socketCreated && backend.connected && backend.sendSucceeds
    ensures [AfterSend(backend.recv)[0].response] == Answer(BackendOutcome(backend))
  {
    match backend.recv
    case RecvFailed(errno) =>
    case Reply(message) =>
  }

  lemma NoSocketLog(body: seq<Byte>, backend: Backend)
    requires |body| > 0 && !backend.socketCreated
    ensures var log := Exchange(body, backend);
      Written(log) == [InternalServerError] && Sent(log) == [] &&
      Count(log, SocketOpen) == 0 && Count(log, SocketClose) == 0 && Count(log, ClientClose) == 1
  {
    Log2(ClientWrite(InternalServerError), ClientClose);
  }

  lemma ClosedEarlyLog(body: seq<Byte>, backend: Backend)
    requires |body| > 0 && backend.socketCreated && !(backend.connected && backend.sendSucceeds)
    ensures var log := Exchange(body, backend);
      var r := if backend.connected then BadGateway else InternalServerError;
      Written(log) == [r] && Sent(log) == [] &&
      Count(log, SocketOpen) == 1 && Count(log, SocketClose) == 1 && Count(log, ClientClose) == 1
  {
    var r := if backend.connected then BadGateway else InternalServerError;
    assert Exchange(body, backend) == [SocketOpen, SocketClose] + [ClientWrite(r), ClientClose];
    ClosedEarlyShape(r);
  }

  lemma ClosedEarlyShape(r: Response)
    ensures var log := [SocketOpen, SocketClose] + [ClientWrite(r), ClientClose];
      Written(log) == [r] && Sent(log) == [] &&
      Count(log, SocketOpen) == 1 && Count(log, SocketClose) == 1 && Count(log, ClientClose) == 1
  {
    LogAppend([SocketOpen, SocketClose], [ClientWrite(r), ClientClose]);
    Log2(SocketOpen, SocketClose);
    Log2(ClientWrite(r), ClientClose);
  }

  lemma ExchangedLog(body: seq<Byte>, backend: Backend)
    requires |body| > 0 && backend.socketCreated && backend.connected && backend.sendSucceeds
    ensures var log := Exchange(body, backend);
      Written(log) == [AfterSend(backend.recv)[0].response] && Sent(log) == [body] &&
      Count(log, SocketOpen) == 1 && Count(log, SocketClose) == 1 && Count(log, ClientClose) == 1
  {
    LogAppend([SocketOpen, BackendSend(body)], AfterSend(backend.recv));
    Log2(SocketOpen, BackendSend(body));
    AfterSendLog(backend.recv);
  }

  /** Every run of the handler writes the table's response, sends the body
      exactly when the channel comes up, closes the client exactly once and
      closes the channel exactly as often as it opens it. */
  lemma HandleLog(read: ReadOutcome, backend: Backend)
    ensures var log := Handle(read, backend);
      var channel := if OpensChannel(read, backend) then 1 else 0;
      Written(log) == Answer(Classify(read, backend)) &&
      Sent(log) == (if SendsBody(read, backend) then [RequestBody(read.data)] else []) &&
      Count(log, SocketOpen) == channel && Count(log, SocketClose) == channel &&
      Count(log, ClientClose) == 1
  {
    var o := Classify(read, backend);
    if o.Dropped? {
      Log1(ClientClose);
    } else if !ContactsBackend(o) {
      LocalAnswerLog(read, backend);
    } else {
      ExchangeLog(RequestBody(read.data), backend);
    }
  }

  /** The preflight and empty-body replies are answered without the backend. */
  lemma LocalAnswerLog(read: ReadOutcome, backend: Backend)
    requires var o := Classify(read, backend); !o.Dropped? && !ContactsBackend(o)
    ensures var log := Handle(read, backend);
      Written(log) == Answer(Classify(read, backend)) && Sent(log) == [] &&
      Count(log, SocketOpen) == 0 && Count(log, SocketClose) == 0 &&
      Count(log, ClientClose) == 1
  {
    var o := Classify(read, backend);
    var r := if o.Preflight? then OptionsResponse else BadRequest;
    assert Answer(o) == [r];
    assert Handle(read, backend) == [ClientWrite(r), ClientClose];
    Log2(ClientWrite(r), ClientClose);
  }

  /** The table's responses carry the table's statuses. */
  lemma ResponseStatus(o: Outcome)
    ensures ResponseFor(o).None? <==> StatusFor(o).None?
    ensures ResponseFor(o).Some? ==> ResponseFor(o).value.status == StatusFor(o).value
  {
  }

  /** A connection whose read delivered bytes gets exactly one response,
      with the status of the first step that failed; a failed or empty read
      gets none. */
  lemma StatusTable(read: ReadOutcome, backend: Backend)
    ensures var rs := Written(Handle(read, backend));
      match StatusFor(Classify(read, backend))
      case None => rs == []
      case Some(status) => |rs| == 1 && rs[0].status == status
  {
    HandleLog(read, backend);
    ResponseStatus(Classify(read, backend));
  }

  /** Every path closes the client socket exactly once, as its last effect;
      the channel is opened at most once, as the first effect, and closed
      exactly as often as it is opened. */
  lemma ReleasedExactlyOnce(read: ReadOutcome, backend: Backend)
    ensures var log := Handle(read, backend);
      var opens := Count(log, SocketOpen);
      Count(log, ClientClose) == 1 && log[|log| - 1] == ClientClose &&
      opens == Count(log, SocketClose) && opens <= 1 &&
      (opens == 1 <==> ContactsBackend(Classify(read, backend)) && backend.socketCreated) &&
      (opens == 1 ==> log[0] == SocketOpen)
  {
    HandleLog(read, backend);
  }

  /** The backend receives exactly the request body, once, when the channel
      comes up, and nothing otherwise. */
  lemma ForwardsRequestBody(data: seq<Byte>, backend: Backend)
    ensures Sent(Handle(ReadBytes(data), backend)) ==
      if ContactsBackend(Classify(ReadBytes(data), backend)) &&
         backend.socketCreated && backend.connected && backend.sendSucceeds
      then [RequestBody(data)] else []
  {
    HandleLog(ReadBytes(data), backend);
  }

  /** A preflight request is answered 204 with the CORS permissions whatever
      the backend would have done, and the backend is never contacted. */
  lemma PreflightIgnoresBackend(data: seq<Byte>, backend: Backend, other: Backend)
    requires HasPrefix(data, OptionsMethod)
    ensures Handle(ReadBytes(data), backend) == Handle(ReadBytes(data), other)
    ensures var log := Handle(ReadBytes(data), backend);
      Written(log) == [OptionsResponse] && Count(log, SocketOpen) == 0 && Sent(log) == []
  {
    HandleLog(ReadBytes(data), backend);
  }

  /** The reply is 400 exactly when the request has a header/body boundary
      and nothing after it is taken as body: without a boundary the body is
      `{}`, which is not empty. A 400 never involves the backend. */
  lemma EmptyBodyIffNoContent(data: seq<Byte>, backend: Backend)
    requires |data| > 0 && !HasPrefix(data, OptionsMethod)
    ensures Classify(ReadBytes(data), backend) == EmptyBody <==>
      Parse(data).Body? && Parse(data).length == 0
    ensures Parse(data).NoBoundary? ==> RequestBody(data) == EmptyObject
    ensures Classify(ReadBytes(data), backend) == EmptyBody ==>
      var log := Handle(ReadBytes(data), backend);
      Written(log) == [BadRequest] && Count(log, SocketOpen) == 0 && Sent(log) == []
  {
    var read := ReadBytes(data);
    assert Classify(read, backend) == EmptyBody <==> RequestBody(data) == [];
    if Classify(read, backend) == EmptyBody {
      LocalAnswerLog(read, backend);
    }
  }

  /** A backend reply that fits the receive buffer and holds no NUL reaches
      the client unchanged, in a 200 response. */
  lemma RelaysReply(read: ReadOutcome, backend: Backend, message: seq<Byte>)
    requires Classify(read, backend).Relayed? && backend.recv == Reply(message)
    requires NoNul(message) && |message| < RecvBufSize
    ensures Written(Handle(read, backend)) == [Ok(message)]
  {
    CTextOfNoNul(message);
    assert message[..CopiedCount(|message|)] == message;
    HandleWrites(read, backend);
  }

  /** Any reply is cut to what the receive buffer holds and to its first
      NUL: the client gets a NUL-free prefix of the backend's message of at
      most 4095 bytes, which stops short of the message only at 4095 bytes
      or at a NUL. */
  lemma RelaysReplyPrefix(read: ReadOutcome, backend: Backend, message: seq<Byte>)
    requires Classify(read, backend).Relayed? && backend.recv == Reply(message)
    ensures var rs := Written(Handle(read, backend));
      |rs| == 1 && rs[0].status == 200 &&
      |rs[0].body| < RecvBufSize && NoNul(rs[0].body) &&
      |rs[0].body| <= |message| && rs[0].body == message[..|rs[0].body|] &&
      (|rs[0].body| < |message| ==> |rs[0].body| == RecvBufSize - 1 || message[|rs[0].body|] == NUL)
  {
    var reply := ReplyBody(message);
    assert Classify(read, backend) == Relayed(reply);
    HandleWrites(read, backend);
    assert Written(Handle(read, backend)) == [Ok(reply)];
  }

  /** The responses of a run, apart from the rest of its log. */
  lemma HandleWrites(read: ReadOutcome, backend: Backend)
    ensures Written(Handle(read, backend)) == Answer(Classify(read, backend))
  {
    HandleLog(read, backend);
  }

  // ---------------------------------------------------------------------
  // What goes on the wire.

  /** Every response in the table is framed by its Content-Length (or has
      neither a Content-Length nor a body) and holds no NUL, so `strlen` of
      the formatted text is its full length and `write` sends all of it. */
  lemma ResponseSentWhole(o: Outcome)
    requires ResponseFor(o).Some?
    requires o.Relayed? ==> NoNul(o.reply)
    ensures var r := ResponseFor(o).value;
      Framed(r) && NoNul(Render(r))
  {
    match o
    case Preflight => OptionsSentWhole();
    case EmptyBody => BadRequestSentWhole();
    case ChannelFailed => InternalServerErrorSentWhole();
    case SendFailed => BadGatewaySentWhole();
    case ReceiveFailed => BadGatewaySentWhole();
    case TimedOut => GatewayTimeoutSentWhole();
    case Relayed(reply) => OkSentWhole(reply);
  }

  lemma BadRequestSentWhole()
    ensures Framed(BadRequest) && NoNul(Render(BadRequest))
  {
    ErrorBodiesNulFree();
    assert NoLineBreak("Bad Request") && NoNul("Bad Request");
    JsonSentWhole(400, "Bad Request", EmptyBodyError);
  }

  lemma GatewayTimeoutSentWhole()
    ensures Framed(GatewayTimeout) && NoNul(Render(GatewayTimeout))
  {
    ErrorBodiesNulFree();
    assert NoLineBreak("Gateway Timeout") && NoNul("Gateway Timeout");
    JsonSentWhole(504, "Gateway Timeout", TimeoutError);
  }

  lemma OkSentWhole(reply: seq<Byte>)
    requires NoNul(reply)
    ensures Framed(Ok(reply)) && NoNul(Render(Ok(reply)))
  {
    assert NoLineBreak("OK") && NoNul("OK");
    JsonSentWhole(200, "OK", reply);
  }

  lemma InternalServerErrorSentWhole()
    ensures Framed(InternalServerError) && NoNul(Render(InternalServerError))
  {
    assert NoLineBreak("Internal Server Error") && NoNul("Internal Server Error");
    BareSentWhole(500, "Internal Server Error");
  }

  lemma BadGatewaySentWhole()
    ensures Framed(BadGateway) && NoNul(Render(BadGateway))
  {
    assert NoLineBreak("Bad Gateway") && NoNul("Bad Gateway");
    BareSentWhole(502, "Bad Gateway");
  }

  lemma JsonSentWhole(status: nat, reason: seq<Byte>, body: seq<Byte>)
    requires NoLineBreak(reason) && NoNul(reason) && NoNul(body)
    ensures Framed(JsonResponse(status, reason, body))
    ensures NoNul(Render(JsonResponse(status, reason, body)))
  {
    JsonResponseFramed(status, reason, body);
    JsonResponseNulFree(status, reason, body);
    RenderNoNul(JsonResponse(status, reason, body));
  }

  lemma BareSentWhole(status: nat, reason: seq<Byte>)
    requires NoLineBreak(reason) && NoNul(reason)
    ensures Framed(BareError(status, reason)) && NoNul(Render(BareError(status, reason)))
  {
    BareErrorFramed(status, reason);
    BareErrorNulFree(status, reason);
    RenderNoNul(BareError(status, reason));
  }

  lemma OptionsSentWhole()
    ensures Framed(OptionsResponse) && NoNul(Render(OptionsResponse))
  {
    OptionsResponseFramed();
    OptionsResponseNulFree();
    RenderNoNul(OptionsResponse);
  }

  lemma ErrorBodiesNulFree()
    ensures NoNul(EmptyBodyError) && NoNul(TimeoutError)
  {
  }

  /** Every response the handler writes is framed and sent whole. */
  lemma WrittenSentWhole(read: ReadOutcome, backend: Backend)
    ensures forall r :: r in Written(Handle(read, backend)) ==> Framed(r) && NoNul(Render(r))
  {
    var o := Classify(read, backend);
    assert Written(Handle(read, backend)) == Answer(o) by { HandleLog(read, backend); }
    assert o.Relayed? ==> NoNul(o.reply);
    AnswerSentWhole(o);
  }

  lemma AnswerSentWhole(o: Outcome)
    requires o.Relayed? ==> NoNul(o.reply)
    ensures forall r :: r in Answer(o) ==> Framed(r) && NoNul(Render(r))
  {
    if ResponseFor(o).Some? {
      ResponseSentWhole(o);
    }
  }

  /** The sizes `snprintf` needs for the 400, 504 and 200 replies stay below
      the buffers they are formatted into, so none is truncated. */
  lemma FormattedRepliesFit(reply: seq<Byte>)
    requires |reply| < RecvBufSize
    ensures |Render(BadRequest)| < ErrorResponseBufSize
    ensures |Render(GatewayTimeout)| < ErrorResponseBufSize
    ensures |Render(Ok(reply))| < OkResponseBufSize
  {
    JsonResponseLength(400, "Bad Request", EmptyBodyError);
    JsonResponseLength(504, "Gateway Timeout", TimeoutError);
    JsonResponseLength(200, "OK", reply);
    DecimalWidth(400, 3);
    DecimalWidth(504, 3);
    DecimalWidth(200, 3);
    DecimalWidth(|EmptyBodyError|, 2);
    DecimalWidth(|TimeoutError|, 2);
    DecimalWidth(|reply|, 4);
  }

  /** The CORS origin header is on the 204, 400, 504 and 200 replies and
      missing from the bare 500 and 502 replies. */
  lemma OriginHeaderPresence(o: Outcome)
    requires ResponseFor(o).Some?
    ensures var r := ResponseFor(o).value;
      AllowOrigin in r.headers <==> r.status != 500 && r.status != 502
  {
    match o
    case Preflight => assert OptionsResponse.headers[0] == AllowOrigin;
    case EmptyBody => JsonResponseHeaders(400, "Bad Request", EmptyBodyError);
    case TimedOut => JsonResponseHeaders(504, "Gateway Timeout", TimeoutError);
    case Relayed(reply) => JsonResponseHeaders(200, "OK", reply);
    case _ =>
  }

  // ---------------------------------------------------------------------
  // Many connections.

  /** Every channel opened so far has been closed. */
  predicate Balanced(log: seq<Event>) {
    Count(log, SocketOpen) == Count(log, SocketClose)
  }

  /** Handling one more connection keeps the channels balanced and adds
      exactly one client close. */
  lemma HandlePreservesBalance(log: seq<Event>, read: ReadOutcome, backend: Backend)
    requires Balanced(log)
    ensures Balanced(log + Handle(read, backend))
    ensures Count(log + Handle(read, backend), ClientClose) == Count(log, ClientClose) + 1
  {
    LogAppend(log, Handle(read, backend));
    HandleLog(read, backend);
  }
}
