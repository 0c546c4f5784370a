/** The zero-copy body locator `parse_http_request`: it finds the empty line
    that ends the header section (section 2.1 of RFC 9112) and reads the first
    `Content-Length:` field (section 8.6 of RFC 9110), and it answers with an
    offset and a length into the caller's buffer. */
module RequestParser {
  import opened CStrings
  import opened Numerals

  /** The outcome of the parser: -1 (no header/body boundary), or 0 with a
      view of the body inside the buffer. */
  datatype ParseResult = NoBoundary | Body(offset: nat, length: nat)

  /** The field name the parser looks for, matched case-sensitively. */
  const ContentLengthKey: seq<Byte> := "Content-Length:"

  /** The source's loop over spaces: the first index at or after i that
      does not hold a space. */
  function SkipSpaces(text: seq<Byte>, i: nat): (k: nat)
    requires i <= |text|
    ensures i <= k <= |text|
    ensures forall j :: i <= j < k ==> text[j] == ' '
    ensures k < |text| ==> text[k] != ' '
    decreases |text| - i
  {
    if i < |text| && text[i] == ' ' then SkipSpaces(text, i + 1) else i
  }

  /** The value `atoi` reads after the first `Content-Length:` anywhere in
      the text and the spaces that follow it; None when there is none. */
  function DeclaredLength(text: seq<Byte>): Option<int> {
    match Find(text, ContentLengthKey)
    case None => None
    case Some(j) => Some(Atoi(text[SkipSpaces(text, j + |ContentLengthKey|)..]))
  }

  /** What `parse_http_request(buffer, total_len, ...)` computes when the
      buffer holds `total_len` bytes followed by a NUL. The string searches
      see only the text before the first NUL; the lengths count every byte
      read. A declared length is cut down to the bytes actually present. */
  function Parse(buffer: seq<Byte>): (r: ParseResult)
    ensures r.Body? ==> |CRLFCRLF| <= r.offset <= |buffer|
    ensures r.Body? ==> r.offset + r.length <= |buffer|
  {
    var text := CText(buffer);
    match Find(text, CRLFCRLF)
    case None => NoBoundary
    case Some(i) =>
      var bodyStart := i + |CRLFCRLF|;
      var available := |buffer| - bodyStart;
      match DeclaredLength(text)
      case Some(n) =>
        if n > 0 then Body(bodyStart, if bodyStart + n > |buffer| then available else n)
        else Body(bodyStart, available)
      case None => Body(bodyStart, available)
  }

  /** The parser as the source writes it: two `strstr` searches and a loop
      over the spaces after the field name, with results written through
      the out-parameters `body` and `body_len` only on success. */
  method ParseHttpRequest(buffer: seq<Byte>, body0: nat, bodyLen0: nat)
    returns (rc: int, body: nat, bodyLen: nat)
    ensures rc == 0 || rc == -1
    ensures rc == -1 <==> Parse(buffer) == NoBoundary
    ensures rc == -1 ==> body == body0 && bodyLen == bodyLen0
    ensures rc == 0 ==> Parse(buffer) == Body(body, bodyLen)
  {
    var text := CText(buffer);
    body, bodyLen := body0, bodyLen0;
    var boundary := Find(text, CRLFCRLF);
    if boundary.None? {
      return -1, body, bodyLen;
    }
    var bodyStart := boundary.value + |CRLFCRLF|;
    assert bodyStart <= |buffer|;
    var declared := ReadContentLength(text);
    if declared.Some? && declared.value > 0 {
      body, bodyLen := bodyStart, declared.value;
      if bodyStart + declared.value > |buffer| {
        bodyLen := |buffer| - bodyStart;
      }
      return 0, body, bodyLen;
    }
    body, bodyLen := bodyStart, |buffer| - bodyStart;
    rc := 0;
  }

  /** The `Content-Length:` search, the loop over the spaces after it and
      the `atoi` of what follows. */
  method ReadContentLength(text: seq<Byte>) returns (declared: Option<int>)
    ensures declared == DeclaredLength(text)
  {
    var key := Find(text, ContentLengthKey);
    if key.None? {
      return None;
    }
    var p := key.value + |ContentLengthKey|;
    while p < |text| && text[p] == ' '
      invariant key.value + |ContentLengthKey| <= p <= |text|
      invariant SkipSpaces(text, key.value + |ContentLengthKey|) == SkipSpaces(text, p)
      decreases |text| - p
    {
      p := p + 1;
    }
    assert p == SkipSpaces(text, key.value + |ContentLengthKey|);
    declared := Some(Atoi(text[p..]));
  }

  /** The parser fails exactly when the text holds no empty line; otherwise
      the body starts right after the first one. */
  lemma BoundaryIsFirstEmptyLine(buffer: seq<Byte>)
    ensures Parse(buffer).NoBoundary? <==> forall j :: !OccursAt(CText(buffer), CRLFCRLF, j)
    ensures Parse(buffer).Body? ==>
      var i := Parse(buffer).offset - |CRLFCRLF|;
      OccursAt(CText(buffer), CRLFCRLF, i) &&
      forall j: nat :: j < i ==> !OccursAt(CText(buffer), CRLFCRLF, j)
  {
  }

  /** A positive declared length is clamped to the bytes present after the
      boundary; with no usable declaration the body is every remaining byte. */
  lemma BodyLengthRule(buffer: seq<Byte>)
    requires Parse(buffer).Body?
    ensures var r := Parse(buffer);
      var available := |buffer| - r.offset;
      match DeclaredLength(CText(buffer))
      case Some(n) =>
        (n > 0 ==> r.length == (if n < available then n else available)) &&
        (n <= 0 ==> r.length == available)
      case None => r.length == available
  {
  }

  /** The header line `%zu` writes for a declared length n, without its CRLF. */
  function ContentLengthField(n: nat): seq<Byte> {
    ContentLengthKey + " " + Decimal(n)
  }

  /** A request whose header section ends with a `Content-Length` field of
      value n: the parser finds the body right after the empty line and
      takes min(n, bytes present) of it (all of it when n is zero). */
  lemma ParseDeclaredRequest(head: seq<Byte>, n: nat, content: seq<Byte>)
    requires n <= IntMax
    requires NoNul(head)
    requires forall j :: !OccursAt(head, CRLFCRLF, j)
    requires forall j :: !OccursAt(head, ContentLengthKey, j)
    ensures var offset := |head| + |ContentLengthField(n)| + |CRLFCRLF|;
      Parse(head + ContentLengthField(n) + CRLFCRLF + content)
      == Body(offset, if 0 < n < |content| then n else |content|)
  {
    var field := ContentLengthField(n);
    var text := head + field + CRLFCRLF + content;
    var seen := CText(content);
    var b := |head| + |field|;
    assert CText(text) == head + field + CRLFCRLF + seen by {
      FieldIsPlain(n);
      DeclaredRequestText(head, field, content);
    }
    assert Find(CText(text), CRLFCRLF) == Some(b) by {
      FieldIsPlain(n);
      DeclaredRequestBoundary(head, field, seen);
    }
    assert DeclaredLength(CText(text)) == Some(n) by {
      DeclaredRequestLength(head, n, seen);
    }
    assert |text| - (b + |CRLFCRLF|) == |content|;
    ParseOfParts(text, b, n);
  }

  lemma FieldIsPlain(n: nat)
    ensures NoNul(ContentLengthField(n)) && NoLineBreak(ContentLengthField(n))
  {
    var field := ContentLengthField(n);
    forall i | 0 <= i < |field| ensures field[i] != NUL && field[i] != '\r' && field[i] != '\n' {
      if i < 16 { assert field[i] == (ContentLengthKey + " ")[i]; }
      else { assert field[i] == Decimal(n)[i - 16]; }
    }
  }

  /** The parse result follows from the boundary and the declared length
      found in the text the string functions see; the lengths count every
      byte of the buffer. */
  lemma ParseOfParts(buffer: seq<Byte>, b: nat, n: int)
    requires Find(CText(buffer), CRLFCRLF) == Some(b)
    requires DeclaredLength(CText(buffer)) == Some(n)
    ensures var available := |buffer| - (b + |CRLFCRLF|);
      Parse(buffer) == Body(b + |CRLFCRLF|, if 0 < n < available then n else available)
  {
  }

  /** The string functions see the whole head, field and empty line of such
      a request, and of the content only what precedes its first NUL. */
  lemma DeclaredRequestText(head: seq<Byte>, field: seq<Byte>, content: seq<Byte>)
    requires NoNul(head) && NoNul(field)
    ensures CText(head + field + CRLFCRLF + content) == head + field + CRLFCRLF + CText(content)
  {
    var pre := head + field + CRLFCRLF;
    forall i | 0 <= i < |pre| ensures pre[i] != NUL {
      if i < |head| { assert pre[i] == head[i]; }
      else if i < |head| + |field| { assert pre[i] == field[i - |head|]; }
      else { assert pre[i] == CRLFCRLF[i - |head| - |field|]; }
    }
    CTextAfterNoNul(pre, content);
  }

  /** The first empty line is the one right after the field. */
  lemma DeclaredRequestBoundary(head: seq<Byte>, field: seq<Byte>, content: seq<Byte>)
    requires forall j :: !OccursAt(head, CRLFCRLF, j)
    requires field != [] && NoLineBreak(field)
    ensures Find(head + field + CRLFCRLF + content, CRLFCRLF) == Some(|head| + |field|)
  {
    var text := head + field + CRLFCRLF + content;
    var b := |head| + |field|;
    assert text[b..b + 4] == CRLFCRLF;
    forall j: nat | j < b ensures !OccursAt(text, CRLFCRLF, j) {
      NoEmptyLineBefore(head, field, CRLFCRLF + content, j);
      assert text == head + field + (CRLFCRLF + content);
    }
    FindIsFirst(text, CRLFCRLF, b);
  }

  /** The field name is found where the head ends and `atoi` reads n. */
  lemma DeclaredRequestLength(head: seq<Byte>, n: nat, content: seq<Byte>)
    requires n <= IntMax
    requires forall j :: !OccursAt(head, ContentLengthKey, j)
    ensures DeclaredLength(head + ContentLengthField(n) + CRLFCRLF + content) == Some(n)
  {
    var rest := CRLFCRLF + content;
    var tail := " " + Decimal(n) + rest;
    var text := head + ContentLengthField(n) + CRLFCRLF + content;
    Regroup(head, ContentLengthKey, " ", Decimal(n), CRLFCRLF, content);
    KeyAfterHead(head, tail);
    var p := |head| + |ContentLengthKey|;
    assert text[p..] == tail;
    assert rest[0] == '\r';
    ValueAfterOneSpace(text, p, n, rest);
  }

  lemma Regroup(a: seq<Byte>, b: seq<Byte>, c: seq<Byte>, d: seq<Byte>, e: seq<Byte>, f: seq<Byte>)
    ensures a + (b + c + d) + e + f == a + b + (c + d + (e + f))
  {
  }

  lemma KeyAfterHead(head: seq<Byte>, tail: seq<Byte>)
    requires forall j :: !OccursAt(head, ContentLengthKey, j)
    ensures Find(head + ContentLengthKey + tail, ContentLengthKey) == Some(|head|)
  {
    var text := head + ContentLengthKey + tail;
    var h := |head|;
    assert text[h..h + |ContentLengthKey|] == ContentLengthKey;
    forall j: nat | j < h ensures !OccursAt(text, ContentLengthKey, j) {
      NoKeyBefore(head, tail, j);
    }
    FindIsFirst(text, ContentLengthKey, h);
  }

  lemma ValueAfterOneSpace(text: seq<Byte>, p: nat, n: nat, rest: seq<Byte>)
    requires n <= IntMax
    requires rest == [] || !IsDigit(rest[0])
    requires p <= |text| && text[p..] == " " + Decimal(n) + rest
    ensures Atoi(text[SkipSpaces(text, p)..]) == n
  {
    assert text[p] == ' ';
    assert text[p + 1] == Decimal(n)[0];
    assert SkipSpaces(text, p + 1) == p + 1;
    assert text[p + 1..] == Decimal(n) + rest;
    AtoiReadsDecimal(n, rest);
  }

  /** No empty line starts before the end of a field that holds no line
      break, when the head before it holds none either. */
  lemma NoEmptyLineBefore(head: seq<Byte>, field: seq<Byte>, tail: seq<Byte>, j: nat)
    requires forall k :: !OccursAt(head, CRLFCRLF, k)
    requires field != [] && NoLineBreak(field)
    requires j < |head| + |field|
    ensures !OccursAt(head + field + tail, CRLFCRLF, j)
  {
    var text := head + field + tail;
    if j + 4 <= |head| {
      assert text[j..j + 4] == head[j..j + 4];
      assert !OccursAt(head, CRLFCRLF, j);
    } else if j + 4 <= |text| {
      var k := if j >= |head| then j else |head|;
      assert text[k] == field[k - |head|];
      assert text[j..j + 4][k - j] != CRLFCRLF[k - j];
    }
  }

  /** The field name cannot start inside a head that does not hold it and
      end inside a copy of itself, because its first letter does not recur. */
  lemma NoKeyBefore(head: seq<Byte>, tail: seq<Byte>, j: nat)
    requires forall k :: !OccursAt(head, ContentLengthKey, k)
    requires j < |head|
    ensures !OccursAt(head + ContentLengthKey + tail, ContentLengthKey, j)
  {
    var text := head + ContentLengthKey + tail;
    var m := |ContentLengthKey|;
    if j + m <= |head| {
      assert text[j..j + m] == head[j..j + m];
      assert !OccursAt(head, ContentLengthKey, j);
    } else if j + m <= |text| {
      var d := |head| - j;
      assert text[|head|] == 'C';
      assert forall k :: 0 < k < m ==> ContentLengthKey[k] != 'C';
      assert text[j..j + m][d] != ContentLengthKey[d];
    }
  }

  /** The case the gateway was written for: `Content-Length: 100` with only
      40 bytes after the boundary gives a body of exactly those 40 bytes. */
  lemma ShortBodyIsClamped(content: seq<Byte>)
    requires |content| == 40
    ensures Parse("POST / HTTP/1.1\r\n" + ContentLengthField(100) + CRLFCRLF + content)
      == Body(40, 40)
  {
    var head: seq<Byte> := "POST / HTTP/1.1\r\n";
    assert forall k :: 0 <= k < 15 ==> head[k] != '\r' && head[k] != 'C';
    forall j: nat ensures !OccursAt(head, CRLFCRLF, j) {
      if j + 4 <= |head| { assert head[j..j + 4][0] != CRLFCRLF[0]; }
    }
    forall j: nat ensures !OccursAt(head, ContentLengthKey, j) {
      if j + 15 <= |head| { assert head[j..j + 15][0] != ContentLengthKey[0]; }
    }
    ParseDeclaredRequest(head, 100, content);
  }
}
