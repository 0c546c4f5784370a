/** The responses the gateway writes back to its client, built the way
    `snprintf` builds them: a status line, header lines, an empty line and
    the body, with `Content-Length` computed from the body itself. */
module Responses {
  import opened CStrings
  import opened Numerals

  datatype Header = Header(name: seq<Byte>, value: seq<Byte>)

  datatype Response = Response(status: nat, reason: seq<Byte>, headers: seq<Header>, body: seq<Byte>)

  function StatusLine(r: Response): seq<Byte> {
    "HTTP/1.1 " + Decimal(r.status) + " " + r.reason
  }

  function HeaderLine(h: Header): seq<Byte> {
    h.name + ": " + h.value
  }

  /** Each header line followed by its CRLF. */
  function Lines(hs: seq<Header>): seq<Byte> {
    if hs == [] then [] else HeaderLine(hs[0]) + CRLF + Lines(hs[1..])
  }

  /** Everything before the body: status line, header lines, empty line. */
  function Head(r: Response): seq<Byte> {
    StatusLine(r) + CRLF + Lines(r.headers) + CRLF
  }

  /** The bytes of the response, as the format string lays them out. */
  function Render(r: Response): (bytes: seq<Byte>)
    ensures |bytes| == |Head(r)| + |r.body|
    ensures bytes[|Head(r)|..] == r.body
  {
    Head(r) + r.body
  }

  /** The value of the first header with the given name. */
  function HeaderValue(hs: seq<Header>, name: seq<Byte>): (v: Option<seq<Byte>>)
    ensures v.Some? ==> exists i :: 0 <= i < |hs| && hs[i] == Header(name, v.value)
    ensures v.None? ==> forall i :: 0 <= i < |hs| ==> hs[i].name != name
  {
    if hs == [] then None
    else if hs[0].name == name then Some(hs[0].value)
    else
      var v := HeaderValue(hs[1..], name);
      assert forall i :: 1 <= i < |hs| ==> hs[i] == hs[1..][i - 1];
      v
  }

  const ContentLengthName: seq<Byte> := "Content-Length"

  const AllowOrigin: Header := Header("Access-Control-Allow-Origin", "*")
  const JsonContentType: Header := Header("Content-Type", "application/json")

  /** The reply to a CORS preflight: the four permission headers and no body. */
  const AllowMethods: Header := Header("Access-Control-Allow-Methods", "POST, GET, OPTIONS, PUT")
  const AllowHeaders: Header := Header("Access-Control-Allow-Headers", "Content-Type")
  const MaxAge: Header := Header("Access-Control-Max-Age", "86400")
  const OptionsResponse: Response :=
    Response(204, "No Content", [AllowOrigin, AllowMethods, AllowHeaders, MaxAge], [])

  /** A JSON reply with the CORS origin header and a Content-Length. */
  function JsonResponse(status: nat, reason: seq<Byte>, body: seq<Byte>): Response {
    Response(status, reason, [JsonContentType, AllowOrigin, Header(ContentLengthName, Decimal(|body|))], body)
  }

  /** The Content-Length a JSON reply announces is the decimal length of the
      body it carries, and the reply carries the CORS origin header. */
  lemma JsonResponseHeaders(status: nat, reason: seq<Byte>, body: seq<Byte>)
    ensures var r := JsonResponse(status, reason, body);
      HeaderValue(r.headers, ContentLengthName) == Some(Decimal(|body|)) &&
      AllowOrigin in r.headers
  {
    OtherNamesDiffer();
    LengthAfterTwo(JsonContentType, AllowOrigin, Decimal(|body|));
  }

  /** A length header behind two headers of other names is the one found. */
  lemma LengthAfterTwo(a: Header, b: Header, digits: seq<Byte>)
    requires a.name != ContentLengthName && b.name != ContentLengthName
    ensures var hs := [a, b, Header(ContentLengthName, digits)];
      HeaderValue(hs, ContentLengthName) == Some(digits) && b in hs
  {
    var length := Header(ContentLengthName, digits);
    var hs := [a, b, length];
    assert hs[1] == b;
    SkipOtherHeader(b, [length]);
    assert [b] + [length] == hs[1..];
    SkipOtherHeader(a, hs[1..]);
    assert [a] + hs[1..] == hs;
  }

  lemma OtherNamesDiffer()
    ensures JsonContentType.name != ContentLengthName && AllowOrigin.name != ContentLengthName
  {
    assert |JsonContentType.name| == 12 && |AllowOrigin.name| == 27 && |ContentLengthName| == 14;
  }

  /** A header of another name does not hide the one looked for. */
  lemma SkipOtherHeader(h: Header, hs: seq<Header>)
    requires h.name != ContentLengthName
    ensures HeaderValue([h] + hs, ContentLengthName) == HeaderValue(hs, ContentLengthName)
  {
    assert ([h] + hs)[1..] == hs;
  }

  /** The bare error replies: a status line and `Content-Length: 0`. */
  function BareError(status: nat, reason: seq<Byte>): (r: Response)
    ensures r.body == [] && r.status == status
    ensures HeaderValue(r.headers, ContentLengthName) == Some("0")
    ensures AllowOrigin !in r.headers
  {
    Response(status, reason, [Header(ContentLengthName, "0")], [])
  }

  const EmptyBodyError: seq<Byte> := "{\"error\":\"empty request body\"}"
  const TimeoutError: seq<Byte> := "{\"error\":\"timeout from backend\"}"

  const BadRequest: Response := JsonResponse(400, "Bad Request", EmptyBodyError)
  const InternalServerError: Response := BareError(500, "Internal Server Error")
  const BadGateway: Response := BareError(502, "Bad Gateway")
  const GatewayTimeout: Response := JsonResponse(504, "Gateway Timeout", TimeoutError)

  function Ok(reply: seq<Byte>): Response {
    JsonResponse(200, "OK", reply)
  }

  // ---------------------------------------------------------------------
  // Framing: where the body starts and how long the header says it is.

  predicate WellFormedHeaders(hs: seq<Header>) {
    forall i :: 0 <= i < |hs| ==> NoLineBreak(hs[i].name) && NoLineBreak(hs[i].value)
  }

  predicate WellFormed(r: Response) {
    NoLineBreak(r.reason) && WellFormedHeaders(r.headers)
  }

  /** A run of non-empty lines, each ended by CRLF: it holds no empty line,
      does not start with CR, and its last line's final byte is not CR. */
  ghost predicate LineBlock(p: seq<Byte>) {
    |p| >= 3 && p[0] != '\r' && p[|p| - 3] != '\r' && p[|p| - 2..] == CRLF &&
    forall j :: !OccursAt(p, CRLFCRLF, j)
  }

  /** A client that reads up to the first empty line and then as many bytes
      as Content-Length says receives exactly the body; a response without
      Content-Length has no body. */
  predicate Framed(r: Response) {
    var bytes := Render(r);
    Find(bytes, CRLFCRLF) == Some(|Head(r)| - |CRLFCRLF|) &&
    match HeaderValue(r.headers, ContentLengthName)
    case Some(v) =>
      AllDigits(v) && DigitsValue(v) == |r.body| &&
      bytes[|Head(r)|..|Head(r)| + DigitsValue(v)] == r.body
    case None => r.body == []
  }

  lemma LineIsBlock(line: seq<Byte>)
    requires line != [] && NoLineBreak(line)
    ensures LineBlock(line + CRLF)
  {
    var p := line + CRLF;
    assert p[|p| - 3] == line[|line| - 1];
    forall j: nat ensures !OccursAt(p, CRLFCRLF, j) {
      if j + 4 <= |p| {
        assert p[j] == line[j];
        assert p[j..j + 4][0] != CRLFCRLF[0];
      }
    }
  }

  lemma {:induction false} JoinBlocks(p: seq<Byte>, q: seq<Byte>)
    requires LineBlock(p) && LineBlock(q)
    ensures LineBlock(p + q)
  {
    var t := p + q;
    assert t[|t| - 2..] == q[|q| - 2..];
    forall j: nat ensures !OccursAt(t, CRLFCRLF, j) {
      if j + 4 <= |t| {
        if j + 4 <= |p| {
          assert t[j..j + 4] == p[j..j + 4];
          assert !OccursAt(p, CRLFCRLF, j);
        } else if j >= |p| {
          assert t[j..j + 4] == q[j - |p|..j - |p| + 4];
          assert !OccursAt(q, CRLFCRLF, j - |p|);
        } else if j == |p| - 1 {
          assert t[j..j + 4][0] == '\n';
        } else if j == |p| - 2 {
          assert t[j..j + 4][2] == q[0];
        } else {
          assert t[j..j + 4][0] == p[|p| - 3];
        }
      }
    }
  }

  lemma {:induction false} LinesAreBlock(hs: seq<Header>)
    requires hs != [] && WellFormedHeaders(hs)
    ensures LineBlock(Lines(hs))
  {
    var line := HeaderLine(hs[0]);
    assert line[|hs[0].name|] == ':';
    assert NoLineBreak(line) by {
      forall i | 0 <= i < |line| ensures line[i] != '\r' && line[i] != '\n' {
        if i < |hs[0].name| { assert line[i] == hs[0].name[i]; }
        else if i >= |hs[0].name| + 2 { assert line[i] == hs[0].value[i - |hs[0].name| - 2]; }
      }
    }
    LineIsBlock(line);
    if |hs| > 1 {
      assert WellFormedHeaders(hs[1..]) by {
        forall i | 0 <= i < |hs| - 1 ensures NoLineBreak(hs[1..][i].name) && NoLineBreak(hs[1..][i].value) {
          assert hs[1..][i] == hs[i + 1];
        }
      }
      LinesAreBlock(hs[1..]);
      JoinBlocks(line + CRLF, Lines(hs[1..]));
      assert Lines(hs) == (line + CRLF) + Lines(hs[1..]);
    } else {
      assert Lines(hs) == line + CRLF;
    }
  }

  lemma StatusLineBlock(r: Response)
    requires NoLineBreak(r.reason)
    ensures LineBlock(StatusLine(r) + CRLF)
  {
    var s := StatusLine(r);
    var d := Decimal(r.status);
    forall i | 0 <= i < |s| ensures s[i] != '\r' && s[i] != '\n' {
      if i < 9 { assert s[i] == "HTTP/1.1 "[i]; }
      else if i < 9 + |d| { assert s[i] == d[i - 9]; }
      else if i > 9 + |d| { assert s[i] == r.reason[i - 10 - |d|]; }
    }
    LineIsBlock(s);
  }

  /** The first empty line of a rendered response is the one that ends its
      head, so the body starts right after the head. */
  lemma EmptyLineEndsHead(r: Response)
    requires WellFormed(r)
    ensures Find(Render(r), CRLFCRLF) == Some(|Head(r)| - |CRLFCRLF|)
  {
    var p := StatusLine(r) + CRLF + Lines(r.headers);
    HeadIsBlock(r);
    assert Render(r) == p + (CRLF + r.body);
    FirstEmptyLineEndsBlock(p, r.body);
  }

  lemma HeadIsBlock(r: Response)
    requires WellFormed(r)
    ensures LineBlock(StatusLine(r) + CRLF + Lines(r.headers))
  {
    StatusLineBlock(r);
    if r.headers != [] {
      LinesAreBlock(r.headers);
      JoinBlocks(StatusLine(r) + CRLF, Lines(r.headers));
    } else {
      assert StatusLine(r) + CRLF + Lines(r.headers) == StatusLine(r) + CRLF;
    }
  }

  /** After a block of lines, the CRLF that follows closes the first empty line. */
  lemma FirstEmptyLineEndsBlock(p: seq<Byte>, body: seq<Byte>)
    requires LineBlock(p)
    ensures Find(p + (CRLF + body), CRLFCRLF) == Some(|p| - 2)
  {
    var t := p + (CRLF + body);
    var k := |p| - 2;
    assert t[k..k + 4] == CRLFCRLF;
    forall j: nat | j < k ensures !OccursAt(t, CRLFCRLF, j) {
      if j + 4 <= |p| {
        assert t[j..j + 4] == p[j..j + 4];
        assert !OccursAt(p, CRLFCRLF, j);
      } else {
        assert t[j..j + 4][0] == p[|p| - 3];
      }
    }
    FindIsFirst(t, CRLFCRLF, k);
  }

  /** A well-formed response whose Content-Length is the decimal length of
      its body, or that has neither a Content-Length nor a body, is framed. */
  lemma FramedByLength(r: Response)
    requires WellFormed(r)
    requires match HeaderValue(r.headers, ContentLengthName)
      case Some(v) => AllDigits(v) && DigitsValue(v) == |r.body|
      case None => r.body == []
    ensures Framed(r)
  {
    EmptyLineEndsHead(r);
    var bytes := Render(r);
    assert bytes[|Head(r)|..|Head(r)| + |r.body|] == r.body;
  }

  lemma JsonResponseFramed(status: nat, reason: seq<Byte>, body: seq<Byte>)
    requires NoLineBreak(reason)
    ensures Framed(JsonResponse(status, reason, body))
  {
    var r := JsonResponse(status, reason, body);
    JsonResponseHeaders(status, reason, body);
    assert WellFormedHeaders(r.headers) by {
      var d := Decimal(|body|);
      assert NoLineBreak(d);
      JsonHeaderNamesPlain();
      ThreePlainHeaders(JsonContentType, AllowOrigin, Header(ContentLengthName, d));
    }
    DecimalRoundTrip(|body|);
    FramedByLength(r);
  }

  lemma JsonHeaderNamesPlain()
    ensures NoLineBreak(JsonContentType.name) && NoLineBreak(JsonContentType.value)
    ensures NoLineBreak(AllowOrigin.name) && NoLineBreak(AllowOrigin.value)
    ensures NoLineBreak(ContentLengthName)
  {
  }

  lemma ThreePlainHeaders(a: Header, b: Header, c: Header)
    requires NoLineBreak(a.name) && NoLineBreak(a.value)
    requires NoLineBreak(b.name) && NoLineBreak(b.value)
    requires NoLineBreak(c.name) && NoLineBreak(c.value)
    ensures WellFormedHeaders([a, b, c])
  {
  }

  lemma BareErrorFramed(status: nat, reason: seq<Byte>)
    requires NoLineBreak(reason)
    ensures Framed(BareError(status, reason))
  {
    var r := BareError(status, reason);
    assert WellFormedHeaders(r.headers) by {
      assert NoLineBreak(r.headers[0].name) && NoLineBreak(r.headers[0].value);
    }
    assert DigitsValue("0") == DigitsValue([]) * 10 + 0;
    FramedByLength(r);
  }

  lemma OptionsResponseFramed()
    ensures Framed(OptionsResponse)
  {
    var hs := OptionsResponse.headers;
    OptionsWellFormed();
    OptionsHasNoLength();
    FramedByLength(OptionsResponse);
  }

  lemma OptionsWellFormed() ensures WellFormed(OptionsResponse) {
    var hs := OptionsResponse.headers;
    OriginWellFormed();
    MethodsWellFormed();
    PreflightRestWellFormed();
    forall i | 0 <= i < |hs| ensures NoLineBreak(hs[i].name) && NoLineBreak(hs[i].value) {
      assert hs[i] in {AllowOrigin, AllowMethods, AllowHeaders, MaxAge};
    }
    assert NoLineBreak(OptionsResponse.reason);
  }

  lemma OriginWellFormed() ensures NoLineBreak(AllowOrigin.name) && NoLineBreak(AllowOrigin.value) {}
  lemma MethodsWellFormed() ensures NoLineBreak(AllowMethods.name) && NoLineBreak(AllowMethods.value) {}
  lemma PreflightRestWellFormed()
    ensures NoLineBreak(AllowHeaders.name) && NoLineBreak(AllowHeaders.value)
    ensures NoLineBreak(MaxAge.name) && NoLineBreak(MaxAge.value)
  {}

  lemma OptionsHasNoLength() ensures HeaderValue(OptionsResponse.headers, ContentLengthName) == None {
    var hs := OptionsResponse.headers;
    assert forall i :: 0 <= i < |hs| ==> |hs[i].name| != |ContentLengthName|;
  }

  // ---------------------------------------------------------------------
  // What `strlen` and `snprintf` see of a rendered response.

  /** No part of the response holds a NUL byte. */
  predicate NulFree(r: Response) {
    NoNul(r.reason) && NoNul(r.body) &&
    forall i :: 0 <= i < |r.headers| ==> NoNul(r.headers[i].name) && NoNul(r.headers[i].value)
  }

  lemma NoNulJoin(a: seq<Byte>, b: seq<Byte>)
    requires NoNul(a) && NoNul(b)
    ensures NoNul(a + b)
  {
    forall i | 0 <= i < |a + b| ensures (a + b)[i] != NUL {
      if i >= |a| { assert (a + b)[i] == b[i - |a|]; }
    }
  }

  lemma {:induction false} LinesNoNul(hs: seq<Header>)
    requires forall i :: 0 <= i < |hs| ==> NoNul(hs[i].name) && NoNul(hs[i].value)
    ensures NoNul(Lines(hs))
  {
    if hs != [] {
      assert forall i :: 0 <= i < |hs| - 1 ==> hs[1..][i] == hs[i + 1];
      LinesNoNul(hs[1..]);
      NoNulJoin(hs[0].name, ": ");
      NoNulJoin(hs[0].name + ": ", hs[0].value);
      NoNulJoin(HeaderLine(hs[0]), CRLF);
      NoNulJoin(HeaderLine(hs[0]) + CRLF, Lines(hs[1..]));
    }
  }

  /** A response free of NUL renders to bytes free of NUL, so `strlen` of the
      formatted buffer covers the whole response and `write` sends all of it. */
  lemma RenderNoNul(r: Response)
    requires NulFree(r)
    ensures NoNul(Render(r))
  {
    var d := Decimal(r.status);
    assert NoNul(d);
    NoNulJoin("HTTP/1.1 ", d);
    NoNulJoin("HTTP/1.1 " + d, " ");
    NoNulJoin("HTTP/1.1 " + d + " ", r.reason);
    LinesNoNul(r.headers);
    NoNulJoin(StatusLine(r), CRLF);
    NoNulJoin(StatusLine(r) + CRLF, Lines(r.headers));
    NoNulJoin(StatusLine(r) + CRLF + Lines(r.headers), CRLF);
    NoNulJoin(Head(r), r.body);
  }

  lemma JsonResponseNulFree(status: nat, reason: seq<Byte>, body: seq<Byte>)
    requires NoNul(reason) && NoNul(body)
    ensures NulFree(JsonResponse(status, reason, body))
  {
    var d := Decimal(|body|);
    assert NoNul(d);
    ContentTypeNulFree();
    OriginNulFree();
    assert NoNul(ContentLengthName);
  }

  lemma BareErrorNulFree(status: nat, reason: seq<Byte>)
    requires NoNul(reason)
    ensures NulFree(BareError(status, reason))
  {
  }

  lemma OptionsResponseNulFree()
    ensures NulFree(OptionsResponse)
  {
    var hs := OptionsResponse.headers;
    CorsHeadersNulFree();
    forall i | 0 <= i < |hs| ensures NoNul(hs[i].name) && NoNul(hs[i].value) {
      assert hs[i] in {AllowOrigin, AllowMethods, AllowHeaders, MaxAge};
    }
  }

  lemma CorsHeadersNulFree()
    ensures NoNul(AllowOrigin.name) && NoNul(AllowOrigin.value)
    ensures NoNul(AllowMethods.name) && NoNul(AllowMethods.value)
    ensures NoNul(AllowHeaders.name) && NoNul(AllowHeaders.value)
    ensures NoNul(MaxAge.name) && NoNul(MaxAge.value)
  {
    OriginNulFree();
    MethodsNulFree();
    AllowHeadersNulFree();
    MaxAgeNulFree();
  }

  lemma OriginNulFree() ensures NoNul(AllowOrigin.name) && NoNul(AllowOrigin.value) {}
  lemma MethodsNulFree() ensures NoNul(AllowMethods.name) && NoNul(AllowMethods.value) {}
  lemma AllowHeadersNulFree() ensures NoNul(AllowHeaders.name) && NoNul(AllowHeaders.value) {}
  lemma MaxAgeNulFree() ensures NoNul(MaxAge.name) && NoNul(MaxAge.value) {}
  lemma ContentTypeNulFree() ensures NoNul(JsonContentType.name) && NoNul(JsonContentType.value) {}

  /** The size of a formatted JSON reply: 96 bytes of fixed text, the status
      and length numerals, the reason phrase and the body. */
  lemma JsonResponseLength(status: nat, reason: seq<Byte>, body: seq<Byte>)
    ensures |Render(JsonResponse(status, reason, body))|
      == 96 + |Decimal(status)| + |reason| + |Decimal(|body|)| + |body|
  {
    var r := JsonResponse(status, reason, body);
    var hs := r.headers;
    assert hs[1..][1..][1..] == [];
    assert |Lines(hs[1..][1..])| == |ContentLengthName| + 2 + |Decimal(|body|)| + 2;
    assert |Lines(hs)| == 32 + 32 + |Lines(hs[1..][1..])|;
  }
}
