/** The per-connection state machine `connection_handler`: read the request,
    answer a CORS preflight, locate the body, forward it over a fresh
    request/reply channel and translate the outcome into an HTTP response.
    Every call into the operating system or the messaging library is an
    outcome supplied by the caller; what the handler does with them is
    recorded as a log of effects. */
module Gateway {
  import opened CStrings
  import opened Numerals
  import opened RequestParser
  import opened Responses

  /** Capacity of the request buffer; one read fills at most all but one byte. */
  const BufSize: nat := 8192
  /** Capacity of the reply buffer; one receive copies at most all but one byte. */
  const RecvBufSize: nat := 4096
  /** The `errno` value of a receive that timed out (Linux). */
  const EAGAIN: int := 11
  /** The `snprintf` buffers of the 400/504 replies and of the 200 reply. */
  const ErrorResponseBufSize: nat := 512
  const OkResponseBufSize: nat := 8192

  const OptionsMethod: seq<Byte> := "OPTIONS"
  const EmptyObject: seq<Byte> := "{}"

  /** What the single `read` on the client socket returned: -1, or the
      bytes it stored (none when the client closed the connection). */
  datatype ReadOutcome = ReadFailed | ReadBytes(data: seq<Byte>)

  /** What `zmq_recv` did: failed with an `errno`, or delivered a message
      of which at most `RecvBufSize - 1` bytes fit in the buffer. */
  datatype RecvOutcome = RecvFailed(errno: int) | Reply(message: seq<Byte>)

  /** The outcomes of the messaging calls, in the order they are made. */
  datatype Backend = Backend(socketCreated: bool, connected: bool, sendSucceeds: bool, recv: RecvOutcome)

  /** An effect visible outside the handler. A write sends
      `strlen(Render(response))` bytes of the formatted response. */
  datatype Event =
    | ClientWrite(response: Response)
    | ClientClose
    | SocketOpen
    | SocketClose
    | BackendSend(message: seq<Byte>)

  function Min(a: int, b: int): int {
    if a < b then a else b
  }

  /** The number of bytes `zmq_recv` copies out of a message it received. */
  function CopiedCount(received: nat): (n: nat)
    ensures n < RecvBufSize && n <= received
    ensures received < RecvBufSize ==> n == received
    ensures received >= RecvBufSize - 1 ==> n == RecvBufSize - 1
  {
    Min(received, RecvBufSize - 1)
  }

  /** The reply body: the copied bytes up to their first NUL, as `strlen`
      and `%s` see them once the buffer is terminated after the copy. */
  function ReplyBody(message: seq<Byte>): (body: seq<Byte>)
    ensures |body| < RecvBufSize && NoNul(body)
    ensures |body| <= |message| && body == message[..|body|]
    ensures |body| < |message| ==> |body| == RecvBufSize - 1 || message[|body|] == NUL
  {
    var copied := message[..CopiedCount(|message|)];
    assert copied[..|CText(copied)|] == message[..|CText(copied)|];
    CText(copied)
  }

  /** The body forwarded to the backend: the parser's view into the request,
      or `{}` when the request holds no header/body boundary. */
  function RequestBody(data: seq<Byte>): seq<Byte> {
    match Parse(data)
    case NoBoundary => EmptyObject
    case Body(offset, length) => data[offset..offset + length]
  }

  /** Everything `connection_handler` does for one connection, step by step,
      stopping at the first step that fails. */
  function Handle(read: ReadOutcome, backend: Backend): (log: seq<Event>)
    ensures log != [] && log[|log| - 1] == ClientClose
  {
    match read
    case ReadFailed => [ClientClose]
    case ReadBytes(data) =>
      if |data| == 0 then [ClientClose] else Serve(data, backend)
  }

  /** The steps after a successful read: the preflight answer, the parse and
      the empty-body check, then the exchange with the backend. */
  function Serve(data: seq<Byte>, backend: Backend): (log: seq<Event>)
    ensures log != [] && log[|log| - 1] == ClientClose
  {
    if HasPrefix(data, OptionsMethod) then [ClientWrite(OptionsResponse), ClientClose]
    else
      var body := RequestBody(data);
      if |body| == 0 then [ClientWrite(BadRequest), ClientClose]
      else Exchange(body, backend)
  }

  /** The steps from opening the channel to the reply, for a non-empty body. */
  function Exchange(body: seq<Byte>, backend: Backend): (log: seq<Event>)
    ensures log != [] && log[|log| - 1] == ClientClose
  {
    if !backend.socketCreated then [ClientWrite(InternalServerError), ClientClose]
    else if !backend.connected then
      [SocketOpen, SocketClose, ClientWrite(InternalServerError), ClientClose]
    else if !backend.sendSucceeds then
      [SocketOpen, SocketClose, ClientWrite(BadGateway), ClientClose]
    else [SocketOpen, BackendSend(body)] + AfterSend(backend.recv)
  }

  /** The steps from the receive on: the reply, then both releases. */
  function AfterSend(recv: RecvOutcome): (log: seq<Event>)
    ensures |log| == 3 && log[1..] == [SocketClose, ClientClose]
  {
    match recv
    case RecvFailed(errno) =>
      [ClientWrite(if errno == EAGAIN then GatewayTimeout else BadGateway), SocketClose, ClientClose]
    case Reply(message) =>
      [ClientWrite(Ok(ReplyBody(message))), SocketClose, ClientClose]
  }

  // ---------------------------------------------------------------------
  // Reading the request into the zero-filled buffer.

  /** `read(client_fd, buffer, sizeof(buffer) - 1)`. */
  method ReadInto(buffer: array<Byte>, read: ReadOutcome) returns (len: int)
    requires read.ReadBytes? ==> |read.data| < buffer.Length
    modifies buffer
    ensures read.ReadFailed? ==> len == -1 && buffer[..] == old(buffer[..])
    ensures read.ReadBytes? ==> len == |read.data| && buffer[..len] == read.data
    ensures read.ReadBytes? ==> buffer[len..] == old(buffer[len..])
  {
    match read
    case ReadFailed =>
      len := -1;
    case ReadBytes(data) =>
      forall i | 0 <= i < |data| {
        buffer[i] := data[i];
      }
      len := |data|;
  }

  /** `zmq_recv(socket, recv_buffer, sizeof(recv_buffer) - 1, 0)`: -1 on
      failure, otherwise the size of the whole message, of which only the
      bytes that fit are copied. */
  method ReceiveInto(recvBuffer: array<Byte>, recv: RecvOutcome) returns (rret: int)
    requires recvBuffer.Length == RecvBufSize
    modifies recvBuffer
    ensures recv.RecvFailed? ==> rret == -1 && recvBuffer[..] == old(recvBuffer[..])
    ensures recv.Reply? ==> rret == |recv.message|
    ensures recv.Reply? ==>
      var n := CopiedCount(|recv.message|);
      recvBuffer[..n] == recv.message[..n] && recvBuffer[n..] == old(recvBuffer[n..])
  {
    match recv
    case RecvFailed(_) =>
      rret := -1;
    case Reply(message) =>
      var n := CopiedCount(|message|);
      forall i | 0 <= i < n {
        recvBuffer[i] := message[i];
      }
      rret := |message|;
  }

  /** Where the corrected handler stores the terminating NUL after a
      receive: right after the bytes actually copied, so inside the buffer
      even when the message was longer than the buffer. */
  function TerminatorIndex(rret: nat): (i: nat)
    ensures i < RecvBufSize
    ensures i == CopiedCount(rret)
  {
    if rret < RecvBufSize - 1 then rret else RecvBufSize - 1
  }

  /** The store the source writes, `recv_buffer[rret] = '\0'`, is defined
      only while the message size returned by `zmq_recv` is an index of the
      4096-byte buffer. */
  predicate SourceTerminatorInBounds(rret: nat) {
    rret < RecvBufSize
  }

  /** A backend reply of 4096 bytes or more makes the source store its NUL
      past the end of `recv_buffer`, since `zmq_recv` returns the size of the
      whole message and not the number of bytes copied. */
  lemma LongReplyOverflowsSourceBuffer(message: seq<Byte>)
    requires |message| >= RecvBufSize
    ensures !SourceTerminatorInBounds(|message|)
    ensures TerminatorIndex(|message|) == RecvBufSize - 1
  {
  }

  /** For every reply that fits, the corrected store is the source's store
      at index `rret`. */
  lemma TerminatorAgreesWithSource(rret: nat)
    requires SourceTerminatorInBounds(rret)
    ensures TerminatorIndex(rret) == rret
  {
  }

  /** `parse_http_request(buffer, len, &body, &body_length)`, falling
      back to `{}` when it fails. */
  method LocateBody(buffer: array<Byte>, len: nat, ghost data: seq<Byte>) returns (body: seq<Byte>)
    requires len <= buffer.Length && buffer[..len] == data
    ensures body == RequestBody(data)
  {
    var request := buffer[..len];
    var rc, offset, bodyLength := ParseHttpRequest(request, 0, 0);
    if rc != 0 {
      body := EmptyObject;
    } else {
      body := request[offset..offset + bodyLength];
    }
  }

  // ---------------------------------------------------------------------
  // The handler.

  /** The effects of the gateway on the world: the log of every write and
      close on client sockets and every channel opened, used and closed. */
  class GatewayProcess {
    var log: seq<Event>

    constructor ()
      ensures log == []
    {
      log := [];
    }

    /** `write(client_fd, response, strlen(response))`. */
    method Write(r: Response)
      modifies this
      ensures log == old(log) + [ClientWrite(r)]
    {
      log := log + [ClientWrite(r)];
    }

    /** `close(client_fd)`. */
    method CloseClient()
      modifies this
      ensures log == old(log) + [ClientClose]
    {
      log := log + [ClientClose];
    }

    /** `zmq_socket(context, ZMQ_REQ)`, succeeding when `ok` holds. */
    method ZmqSocket(ok: bool) returns (created: bool)
      modifies this
      ensures created == ok
      ensures log == old(log) + (if ok then [SocketOpen] else [])
    {
      created := ok;
      if ok {
        log := log + [SocketOpen];
      }
    }

    /** `zmq_close(socket)`. */
    method ZmqClose()
      modifies this
      ensures log == old(log) + [SocketClose]
    {
      log := log + [SocketClose];
    }

    /** `zmq_send(socket, body, body_length, 0)`: the message is delivered
      when `ok` holds, and -1 is returned otherwise. */
    method ZmqSend(message: seq<Byte>, ok: bool) returns (sret: int)
      modifies this
      ensures (sret >= 0) == ok
      ensures log == old(log) + (if ok then [BackendSend(message)] else [])
    {
      if ok {
        sret := |message|;
        log := log + [BackendSend(message)];
      } else {
        sret := -1;
      }
    }

    /** `connection_handler` for one accepted connection. */
    method ConnectionHandler(read: ReadOutcome, backend: Backend)
      requires read.ReadBytes? ==> |read.data| <= BufSize - 1
      modifies this
      ensures log == old(log) + Handle(read, backend)
    {
      var buffer := new Byte[BufSize](_ => NUL);
      var len := ReadInto(buffer, read);
      if len <= 0 {
        CloseClient();
        return;
      }
      ServeBuffer(buffer, len, read.data, backend);
    }

    /** The handler after its read: `buffer` holds the `len` bytes read,
        followed by zeros. */
    method ServeBuffer(buffer: array<Byte>, len: nat, ghost data: seq<Byte>, backend: Backend)
      requires buffer.Length == BufSize && 0 < len < BufSize && len == |data|
      requires buffer[..len] == data && forall i :: len <= i < BufSize ==> buffer[i] == NUL
      modifies this
      ensures log == old(log) + Serve(data, backend)
    {
      // strncmp(buffer, "OPTIONS", 7) == 0
      OptionsPrefixInBuffer(buffer[..], data);
      if buffer[..|OptionsMethod|] == OptionsMethod {
        Write(OptionsResponse);
        CloseClient();
        return;
      }

      var body := LocateBody(buffer, len, data);
      if |body| == 0 {
        Write(BadRequest);
        CloseClient();
        return;
      }
      ExchangeBody(body, backend);
    }

    /** The handler from `zmq_socket` on, for a non-empty body. */
    method ExchangeBody(body: seq<Byte>, backend: Backend)
      requires |body| > 0
      modifies this
      ensures log == old(log) + Exchange(body, backend)
    {
      var created := ZmqSocket(backend.socketCreated);
      if !created {
        Write(InternalServerError);
        CloseClient();
        return;
      }

      if !backend.connected {
        ZmqClose();
        Write(InternalServerError);
        CloseClient();
        return;
      }

      var sret := ZmqSend(body, backend.sendSucceeds);
      if sret < 0 {
        ZmqClose();
        Write(BadGateway);
        CloseClient();
        return;
      }

      AwaitReply(backend.recv);
    }

    /** The handler from `zmq_recv` on, once the body has been sent. */
    method AwaitReply(recv: RecvOutcome)
      modifies this
      ensures log == old(log) + AfterSend(recv)
    {
      var recvBuffer := new Byte[RecvBufSize](_ => NUL);
      var rret := ReceiveInto(recvBuffer, recv);
      if rret < 0 {
        var zerr := recv.errno;
        if zerr == EAGAIN {
          Write(GatewayTimeout);
        } else {
          Write(BadGateway);
        }
        ZmqClose();
        CloseClient();
        return;
      }

      var message := recv.message;
      var k := TerminatorIndex(rret);
      recvBuffer[k] := NUL;
      var reply := CText(recvBuffer[..]);
      ReplyInBuffer(recvBuffer[..], message, k);
      Write(Ok(reply));
      ZmqClose();
      CloseClient();
    }
  }

  /** Over a buffer that holds the request and zeros after it, comparing the
      first seven bytes with `OPTIONS` decides whether the request starts
      with that word. */
  lemma OptionsPrefixInBuffer(buffer: seq<Byte>, data: seq<Byte>)
    requires |data| < |buffer| && |OptionsMethod| <= |buffer|
    requires buffer[..|data|] == data
    requires forall i :: |data| <= i < |buffer| ==> buffer[i] == NUL
    ensures (buffer[..|OptionsMethod|] == OptionsMethod) == HasPrefix(data, OptionsMethod)
  {
    var m := |OptionsMethod|;
    if |data| >= m {
      assert buffer[..m] == data[..m];
    } else {
      assert buffer[..m][|data|] == NUL;
      assert OptionsMethod[|data|] != NUL;
    }
  }

  /** After the copy and the terminating store, `strlen` of the reply
      buffer sees the reply body. */
  lemma ReplyInBuffer(contents: seq<Byte>, message: seq<Byte>, k: nat)
    requires k == CopiedCount(|message|) && k < |contents|
    requires contents[..k] == message[..k] && contents[k] == NUL
    ensures CText(contents) == ReplyBody(message)
  {
    CTextBeforeTerminator(contents, k);
  }
}
