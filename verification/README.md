# HTTP-to-ZeroMQ gateway: the request parser and the connection handler

The gateway in `toolnbox/http_translateer/server.c` accepts HTTP requests, takes
the body of each request and forwards it over a ZeroMQ request/reply channel to a
backend. It then turns the backend's reply, or the failure it ran into, into an
HTTP response. This project models the two parts of that file that decide what
happens to one connection:

- `parse_http_request`, the zero-copy body locator. It finds the empty line that
  ends the header section (section 2.1 of RFC 9112). It reads the first
  `Content-Length:` field (section 8.6 of RFC 9110) with `atoi`. It answers with
  an offset and a length into the caller's buffer, the length cut down to the
  bytes actually read.
- `connection_handler`, the per-connection state machine: read, OPTIONS
  preflight, parse, empty-body check, socket, connect, send, receive, reply.
  Every call into the operating system or into ZeroMQ (`read`, `zmq_socket`,
  `zmq_connect`, `zmq_send`, `zmq_recv` and its `errno`) is an outcome given as
  input. Everything the handler does with those outcomes is recorded in a log
  of effects: responses written, client closes, channels opened and closed,
  and messages sent.

The Dafny modules follow the program's layers:

- `CStrings`: the C-string view of a `char` buffer. It covers `strlen`, the text
  `strstr` sees (everything before the first NUL), and `strstr` as a
  first-occurrence search. A byte is a `char` below 256, so string literals
  stand for byte strings.
- `Numerals`: `atoi` as glibc defines it, `(int) strtol(s, NULL, 10)`. That is
  C-locale `isspace`, an optional sign and digits, saturated to a 64-bit `long`
  and then truncated to 32 bits. It also covers `%zu` formatting and reading a
  `%zu` numeral back.
- `RequestParser`: `Parse`, the reference function for `parse_http_request`.
  Also the method `ParseHttpRequest`, which follows the source's steps and its
  out-parameter discipline and is proved equal to `Parse`, and lemmas about
  what the parser returns.
- `Responses`: the responses as the format strings lay them out.
  - Proved there: each `Content-Length` is the decimal length of the body that
    follows; the first empty line of each response ends its head; no response
    holds a NUL, so `strlen` of the formatted text covers all of it.
- `Gateway`:
  - the reference functions `Handle`, `Serve`, `Exchange` and `AfterSend`;
  - the class `GatewayProcess`, whose `log` field the handler's methods extend,
    with `ConnectionHandler` proved to append exactly `Handle(read, backend)`;
  - the buffer-level steps: the zero-filled read buffer, the `OPTIONS`
    comparison, `zmq_recv` copying into `recv_buffer`, and the terminating store.
- `GatewayProperties`: the outcome table (which step fails, which status
  follows) and what every run guarantees:
  - one response per request, with the table's status;
  - the client closed exactly once and last;
  - the channel closed exactly as often as it is opened;
  - the body forwarded unchanged;
  - every response framed and written whole.

Two behaviours of the code are easy to miss:

- The 500 and 502 replies (server.c:132, 149, 161, 191) carry only
  `Content-Length: 0` and no `Access-Control-Allow-Origin` header. Every other
  reply carries that header. `GatewayProperties.OriginHeaderPresence` states this.
- The 200 body is not the backend's whole reply. `zmq_recv` copies at most 4095
  bytes (server.c:172), and `%s` and `strlen` stop at the first NUL
  (server.c:200-212). `GatewayProperties.RelaysReplyPrefix` states where the
  reply is cut. `GatewayProperties.RelaysReply` states when it is passed on
  unchanged.

## Model

| member | source | states |
|---|---|---|
| CStrings.StrLen | toolnbox/http_translateer/server.c:212 | `strlen` is the index of the first NUL: the bytes before it hold none, and the byte at it is NUL unless the input is used up |
| CStrings.CText | toolnbox/http_translateer/server.c:31 | the text a string function sees is a NUL-free prefix of the buffer, ended by the buffer's first NUL |
| CStrings.Find | toolnbox/http_translateer/server.c:31 | `strstr` finds a match exactly when the pattern occurs somewhere, the match is an occurrence, and no occurrence comes before it |
| CStrings.FindIsFirst | toolnbox/http_translateer/server.c:36 | an occurrence with none before it is the one `strstr` returns |
| CStrings.CTextBeforeTerminator | toolnbox/http_translateer/server.c:200-201 | a NUL stored at index k hides everything after it from the string functions |
| CStrings.CTextOfNoNul | toolnbox/http_translateer/server.c:212 | a NUL-free text is seen whole by the string functions |
| Numerals.Decimal | toolnbox/http_translateer/server.c:118 | `%zu` writes a non-empty run of digits with no leading zero |
| Numerals.DecimalRoundTrip | toolnbox/http_translateer/server.c:118 | reading back the digits `%zu` wrote gives the number written |
| Numerals.SpaceRun | toolnbox/http_translateer/server.c:43 | `atoi` skips exactly the leading C-locale white space |
| Numerals.LeadingDigits | toolnbox/http_translateer/server.c:43 | `atoi` reads the longest run of digits, stopping at the first non-digit |
| Numerals.StrtolValue | toolnbox/http_translateer/server.c:43 | `strtol` skips leading white space, takes an optional sign, then reads the longest run of digits as an exact value; defined by its body, with its parts stated in `SpaceRun` and `LeadingDigits` and its reading of a numeral in `AtoiReadsDecimal` |
| Numerals.ClampLong | toolnbox/http_translateer/server.c:43 | `strtol` is exact inside the bounds of a 64-bit `long`, gives `LONG_MAX` above them and `LONG_MIN` below them |
| Numerals.ToInt32 | toolnbox/http_translateer/server.c:43 | the cast to `int` keeps the value modulo 2^32 within the 32-bit range |
| Numerals.Atoi | toolnbox/http_translateer/server.c:43 | the value `atoi` returns lies in the range of a 32-bit `int` |
| Numerals.AtoiExact | toolnbox/http_translateer/server.c:43 | where the numeral's value fits in an `int`, `atoi` returns exactly that value |
| Numerals.AtoiReadsDecimal | toolnbox/http_translateer/server.c:43 | `atoi` of a numeral `%zu` wrote, followed by a non-digit, is the number written |
| Numerals.LeadingDigitsOfNumeral | toolnbox/http_translateer/server.c:43 | the digit run `atoi` reads ends where the numeral ends |
| Numerals.DecimalWidth | toolnbox/http_translateer/server.c:113 | a number below 10^k takes at most k digits |
| RequestParser.SkipSpaces | toolnbox/http_translateer/server.c:40-41 | the loop stops at the first byte at or after its start that is not a space; everything it passes is a space |
| RequestParser.Parse | toolnbox/http_translateer/server.c:29-59 | on success the body view starts after the boundary and ends within the bytes read (offset <= total_len, offset + body_len <= total_len) |
| RequestParser.ParseHttpRequest | toolnbox/http_translateer/server.c:29-59 | returns 0 or -1; -1 exactly when there is no boundary, leaving both out-parameters unassigned; on 0 it returns the view `Parse` gives |
| RequestParser.DeclaredLength | toolnbox/http_translateer/server.c:36-43 | the value `atoi` reads after the first `Content-Length:` and the spaces after it, or none without the field; `ReadContentLength` is proved equal to it |
| RequestParser.ReadContentLength | toolnbox/http_translateer/server.c:36-43 | the search for `Content-Length:`, the loop over spaces and the `atoi` yield the declared length, or none without the field |
| RequestParser.BoundaryIsFirstEmptyLine | toolnbox/http_translateer/server.c:31-35 | the parser fails exactly when the NUL-terminated text holds no `\r\n\r\n`; otherwise the offset is the first occurrence plus 4 |
| RequestParser.BodyLengthRule | toolnbox/http_translateer/server.c:36-57 | a declared n > 0 gives min(n, total_len - offset); no field, or a value <= 0, gives total_len - offset |
| RequestParser.ParseDeclaredRequest | toolnbox/http_translateer/server.c:29-59 | a NUL-free head without an empty line or the field name, then `Content-Length: n`, the empty line and any content (NUL bytes included), parses to the body right after the empty line, of length min(n, present) or all of it when n is 0 |
| RequestParser.ParseOfParts | toolnbox/http_translateer/server.c:29-59 | the boundary and the declared length found in the text `strstr` sees, with the lengths counted over every byte read, give the parse result |
| RequestParser.DeclaredRequestText | toolnbox/http_translateer/server.c:31 | `strstr` sees the NUL-free head, field and empty line whole, and of the content only what comes before its first NUL |
| RequestParser.DeclaredRequestBoundary | toolnbox/http_translateer/server.c:31 | the first empty line of such a request is the one after its last field |
| RequestParser.DeclaredRequestLength | toolnbox/http_translateer/server.c:36-43 | the field written with `%zu` is found after the head and `atoi` reads back n |
| RequestParser.KeyAfterHead | toolnbox/http_translateer/server.c:36 | `strstr` finds the field name where a head without it ends |
| RequestParser.NoKeyBefore | toolnbox/http_translateer/server.c:36 | no match of the field name can start inside such a head |
| RequestParser.NoEmptyLineBefore | toolnbox/http_translateer/server.c:31 | no empty line starts before the end of a field free of line breaks |
| RequestParser.ValueAfterOneSpace | toolnbox/http_translateer/server.c:40-43 | after the field name and one space, the loop and `atoi` read the written number |
| RequestParser.ShortBodyIsClamped | toolnbox/http_translateer/server.c:48-51 | `Content-Length: 100` with any 40 bytes present gives a 40-byte body right after the empty line |
| Responses.Render | toolnbox/http_translateer/server.c:114-121 | the formatted response is its head followed by exactly the body bytes |
| Responses.HeaderValue | toolnbox/http_translateer/server.c:118 | a header value found belongs to a header of that name; when none is found, no header has that name |
| Responses.JsonResponse | toolnbox/http_translateer/server.c:114-121 | the layout of the three JSON format strings (also lines 180-187 and 205-212): status line, `Content-Type`, the CORS origin, `Content-Length` and the body; defined by its body, with its headers stated in `JsonResponseHeaders` and its size in `JsonResponseLength` |
| Responses.OptionsResponse | toolnbox/http_translateer/server.c:88-94 | the fixed 204 preflight reply with the four CORS headers and no body; a constant, with its framing and NUL-freedom stated in `OptionsResponseFramed`, `OptionsHasNoLength` and `OptionsResponseNulFree` |
| Responses.JsonResponseHeaders | toolnbox/http_translateer/server.c:112-121 | a JSON reply announces the decimal length of its own body as `Content-Length` and carries the CORS origin header |
| Responses.BareError | toolnbox/http_translateer/server.c:132 | the 500/502 replies have an empty body, `Content-Length: 0` and no CORS origin header |
| Responses.EmptyLineEndsHead | toolnbox/http_translateer/server.c:114-120 | the first empty line of a response whose headers hold no line break is the one that ends its head |
| Responses.FramedByLength | toolnbox/http_translateer/server.c:114-121 | a response whose `Content-Length` is the decimal length of its body, or that has neither, is framed: a reader of the head and then `Content-Length` bytes gets exactly the body |
| Responses.JsonResponseFramed | toolnbox/http_translateer/server.c:204-212 | every JSON reply (400, 504, 200) is framed |
| Responses.BareErrorFramed | toolnbox/http_translateer/server.c:161 | the bare error replies are framed |
| Responses.OptionsResponseFramed | toolnbox/http_translateer/server.c:88-94 | the 204 preflight reply is framed |
| Responses.OptionsHasNoLength | toolnbox/http_translateer/server.c:88-94 | the 204 reply carries no `Content-Length` |
| Responses.RenderNoNul | toolnbox/http_translateer/server.c:122 | a response with no NUL in any part formats to NUL-free bytes, so `strlen` covers all of it |
| Responses.JsonResponseNulFree | toolnbox/http_translateer/server.c:205-212 | a JSON reply with a NUL-free reason and body has no NUL anywhere |
| Responses.BareErrorNulFree | toolnbox/http_translateer/server.c:132 | a bare error reply with a NUL-free reason has no NUL anywhere |
| Responses.OptionsResponseNulFree | toolnbox/http_translateer/server.c:88-94 | the preflight reply has no NUL anywhere |
| Responses.JsonResponseLength | toolnbox/http_translateer/server.c:204-212 | a formatted JSON reply is 96 bytes of fixed text plus the status and length numerals, the reason and the body |
| Gateway.CopiedCount | toolnbox/http_translateer/server.c:172 | `zmq_recv` copies all of a message that fits, and exactly 4095 bytes of a message of 4095 bytes or more |
| Gateway.ReplyBody | toolnbox/http_translateer/server.c:170-212 | the 200 body is a NUL-free prefix of the backend's message, shorter than the receive buffer, and it stops short of the message only at 4095 bytes or at a NUL |
| Gateway.Handle | toolnbox/http_translateer/server.c:66-221 | every run of the handler ends by closing the client |
| Gateway.Serve | toolnbox/http_translateer/server.c:86-125 | every run after a successful read ends by closing the client |
| Gateway.Exchange | toolnbox/http_translateer/server.c:127-165 | every run from the socket on ends by closing the client |
| Gateway.AfterSend | toolnbox/http_translateer/server.c:172-218 | after the send there are exactly three effects: the reply, the channel close, the client close |
| Gateway.ReadInto | toolnbox/http_translateer/server.c:73-77 | `read` returns -1 and leaves the buffer alone, or stores the bytes read at the front and leaves the rest as it was |
| Gateway.ReceiveInto | toolnbox/http_translateer/server.c:170-172 | `zmq_recv` returns -1 and leaves the buffer alone, or returns the whole message's size and copies only the bytes that fit |
| Gateway.TerminatorIndex | toolnbox/http_translateer/server.c:200 | the corrected terminator index lies inside `recv_buffer`, right after the bytes copied |
| Gateway.LongReplyOverflowsSourceBuffer | toolnbox/http_translateer/server.c:200 | for a reply of 4096 bytes or more, the index the source stores its NUL at is past the end of the buffer |
| Gateway.TerminatorAgreesWithSource | toolnbox/http_translateer/server.c:200 | for every reply shorter than 4096 bytes, the corrected index is `rret`, the index the source stores at |
| Gateway.RequestBody | toolnbox/http_translateer/server.c:101-106 | the body sent on: the parser's view into the request, or `{}` when the parser fails; defined by its body, with the fallback stated in `EmptyBodyIffNoContent` and the method `LocateBody` proved equal to it |
| Gateway.LocateBody | toolnbox/http_translateer/server.c:101-106 | the body sent on is the parser's view into the buffer, or `{}` when the parser fails |
| Gateway.GatewayProcess.Write | toolnbox/http_translateer/server.c:214 | a write adds the response to the log |
| Gateway.GatewayProcess.CloseClient | toolnbox/http_translateer/server.c:218 | closing the client adds one client close to the log |
| Gateway.GatewayProcess.ZmqSocket | toolnbox/http_translateer/server.c:128-129 | a created socket adds one channel open to the log, a failure adds nothing |
| Gateway.GatewayProcess.ZmqClose | toolnbox/http_translateer/server.c:217 | closing the socket adds one channel close to the log |
| Gateway.GatewayProcess.ZmqSend | toolnbox/http_translateer/server.c:157-158 | the result is negative exactly when the send fails; a successful send adds the message to the log |
| Gateway.GatewayProcess.ConnectionHandler | toolnbox/http_translateer/server.c:66-221 | one connection appends exactly the effects `Handle` gives for the read and backend outcomes |
| Gateway.GatewayProcess.ServeBuffer | toolnbox/http_translateer/server.c:86-125 | after a successful read the handler appends exactly the effects `Serve` gives |
| Gateway.GatewayProcess.ExchangeBody | toolnbox/http_translateer/server.c:127-165 | from the socket on the handler appends exactly the effects `Exchange` gives |
| Gateway.GatewayProcess.AwaitReply | toolnbox/http_translateer/server.c:169-218 | from the receive on the handler appends exactly the effects `AfterSend` gives |
| Gateway.OptionsPrefixInBuffer | toolnbox/http_translateer/server.c:86 | over the zero-filled buffer, comparing the first 7 bytes with `OPTIONS` decides exactly whether the request starts with `OPTIONS` |
| Gateway.ReplyInBuffer | toolnbox/http_translateer/server.c:200-212 | after the copy and the terminating store, `strlen` of `recv_buffer` sees exactly the reply body |
| GatewayProperties.AfterSendLog | toolnbox/http_translateer/server.c:172-218 | after the send: one response, nothing sent, one channel close and one client close |
| GatewayProperties.NoSocketLog | toolnbox/http_translateer/server.c:128-136 | without a socket: a 500, no channel, one client close |
| GatewayProperties.ClosedEarlyLog | toolnbox/http_translateer/server.c:146-165 | a failed connect gives a 500 and a failed send a 502, each with the channel closed once and the client closed once, and nothing sent |
| GatewayProperties.ExchangedLog | toolnbox/http_translateer/server.c:155-218 | once the channel is up, the body is sent exactly once, followed by one response and both closes |
| GatewayProperties.ExchangeLog | toolnbox/http_translateer/server.c:127-218 | from the socket on, the response is the table's, the body is sent exactly when the channel comes up, and the channel is closed once when opened |
| GatewayProperties.AfterSendAnswer | toolnbox/http_translateer/server.c:172-212 | the response after the send is the table's: 504 on `EAGAIN`, 502 on another error, 200 with the reply otherwise |
| GatewayProperties.LocalAnswerLog | toolnbox/http_translateer/server.c:86-125 | the preflight and the empty-body request are answered without opening a channel or sending anything, and the client is closed once |
| GatewayProperties.HandleLog | toolnbox/http_translateer/server.c:66-221 | every run writes the table's response, sends the body exactly when the channel comes up, closes the client once, and opens and closes the channel once exactly when it was created |
| GatewayProperties.ResponseStatus | toolnbox/http_translateer/server.c:86-214 | the table's responses carry the table's statuses |
| GatewayProperties.StatusTable | toolnbox/http_translateer/server.c:77-214 | no response after a failed or empty read; otherwise exactly one, with the status of the first step that fails (204, 400, 500, 502, 504, 200) |
| GatewayProperties.ReleasedExactlyOnce | toolnbox/http_translateer/server.c:78-218 | the client is closed exactly once, as the last effect; the channel is opened at most once, as the first effect, exactly when a socket was created on the backend path, and closed as often as opened |
| GatewayProperties.ForwardsRequestBody | toolnbox/http_translateer/server.c:157 | the backend receives the request body once when the channel comes up, and nothing otherwise |
| GatewayProperties.PreflightIgnoresBackend | toolnbox/http_translateer/server.c:86-98 | an `OPTIONS` request gets the 204 whatever the backend would do, and no channel is opened and nothing is sent |
| GatewayProperties.EmptyBodyIffNoContent | toolnbox/http_translateer/server.c:100-125 | the 400 happens exactly when a boundary was found and the computed length is 0, a failed parse gives `{}`, and the 400 opens no channel |
| GatewayProperties.RelaysReply | toolnbox/http_translateer/server.c:170-214 | a NUL-free reply shorter than 4096 bytes reaches the client unchanged in a 200 |
| GatewayProperties.RelaysReplyPrefix | toolnbox/http_translateer/server.c:170-212 | any reply reaches the client in a single 200 as a NUL-free prefix of at most 4095 bytes, cut only at 4095 bytes or at the reply's first NUL |
| GatewayProperties.ResponseSentWhole | toolnbox/http_translateer/server.c:88-212 | each response in the table is framed and NUL-free |
| GatewayProperties.BadRequestSentWhole | toolnbox/http_translateer/server.c:112-122 | the 400 reply is framed and written whole |
| GatewayProperties.GatewayTimeoutSentWhole | toolnbox/http_translateer/server.c:178-188 | the 504 reply is framed and written whole |
| GatewayProperties.OkSentWhole | toolnbox/http_translateer/server.c:204-214 | a 200 reply with a NUL-free body is framed and written whole |
| GatewayProperties.InternalServerErrorSentWhole | toolnbox/http_translateer/server.c:132-133 | the 500 reply is framed and written whole |
| GatewayProperties.BadGatewaySentWhole | toolnbox/http_translateer/server.c:161-162 | the 502 reply is framed and written whole |
| GatewayProperties.OptionsSentWhole | toolnbox/http_translateer/server.c:88-95 | the 204 reply is framed and written whole |
| GatewayProperties.WrittenSentWhole | toolnbox/http_translateer/server.c:95-214 | every response any run writes is framed and written whole |
| GatewayProperties.FormattedRepliesFit | toolnbox/http_translateer/server.c:113-212 | the 400 and 504 replies fit the 512-byte buffers and a 200 with a body under 4096 bytes fits the 8192-byte buffer, so `snprintf` truncates none |
| GatewayProperties.OriginHeaderPresence | toolnbox/http_translateer/server.c:88-212 | the CORS origin header is on a response exactly when its status is neither 500 nor 502 |
| GatewayProperties.HandlePreservesBalance | toolnbox/http_translateer/server.c:128-218 | handling one more connection keeps opened and closed channels equal and adds exactly one client close |

## Left out

- `main` (server.c:223-301): the listening socket, `bind`/`listen`/`accept`, the thread per connection and the ZeroMQ context. These are socket I/O and thread dispatch, so the model handles one connection at a time and concurrency between connections is not modelled.
- The ZeroMQ socket options and endpoint (server.c:139-146): the receive timeout of 5000 ms, `ZMQ_LINGER` and `tcp://localhost:5555`. The timeout appears only as its outcome, a receive failing with `EAGAIN`.
- `printf`/`fprintf` logging (server.c:83, 108, 130, 147, 159, 167, 177, 190, 201): it has no effect on behaviour.
- Gateway.GatewayProcess.Write: `write` is modelled as sending every byte of `strlen(response)`. Partial writes and write errors are not modelled.
- Gateway.ReadInto: one `read` delivers the whole outcome. Short reads of a request that arrives in pieces are not modelled, just as the source does not handle them.
- Numerals.Atoi: models glibc's `(int) strtol(s, NULL, 10)` in the C locale. The C standard leaves out-of-range values undefined, so only `Numerals.AtoiExact` holds for every C library.
- `zmq_errno` is modelled only by the value the receive failure carries. Linux's `EAGAIN` (11) is the only value the handler tests.
- `toolnbox/http_translateer/test.c` is not part of this model. It is a superseded single-threaded prototype whose boundary search and `{}` fallback duplicate the parser.
- `toolnbox/change_serial_output/tty2log.c` is not part of this model. It is console redirection through `ioctl` and holds no logic to compute.

## Findings

| source | as written | input that shows it | evidently intended | confidence | as-written member | corrected member |
|---|---|---|---|---|---|---|
| toolnbox/http_translateer/server.c:200 | `recv_buffer[rret] = '\0'` with `rret` the value `zmq_recv` returned, which is the size of the whole message even when only 4095 bytes were copied (server.c:172) | a backend reply of 4096 bytes or more: the store lands at index 4096 or beyond, past the end of the 4096-byte `recv_buffer` | terminate right after the bytes copied, at min(rret, 4095) | not executed | Gateway.LongReplyOverflowsSourceBuffer | Gateway.TerminatorIndex |

The handler in the model (`Gateway.GatewayProcess.AwaitReply`) uses the corrected
index. `Gateway.TerminatorAgreesWithSource` shows the two indexes agree on every
reply the source handles correctly. `Gateway.ReplyInBuffer` and
`GatewayProperties.RelaysReplyPrefix` state what reaches the client in every case.
