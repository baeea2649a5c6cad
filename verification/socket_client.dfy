/** The blocking socket client: its request formatter and the byte-by-byte
    response parser of its execution task. */
module SocketClient {

  import opened Wrappers
  import opened Bytes
  import Ascii = Bytes
  import Decimal
  import Utf8
  import opened Frames
  import RequestDecoder
  import NettyClient
  import opened ResponseEncoder
  import opened ClientDecoder

  // ---------------------------------------------------------------------
  // The request.

  /** `json`, the scheme the client always writes. */
  const JsonScheme: Bytes := [106, 115, 111, 110]

  /** What the length field counts: `String.length()` as written, or the
      UTF-8 bytes the server reads. */
  datatype LengthUnit = Utf16Units | Utf8Bytes

  function ContentLength(json: string, unit: LengthUnit): (r: nat)
    ensures unit == Utf8Bytes ==> r == |Utf8.Encode(json)|
    ensures r <= |Utf8.Encode(json)|
  {
    Utf8.Utf16Shorter(json);
    match unit
    case Utf16Units => Utf8.Utf16Length(json)
    case Utf8Bytes => |Utf8.Encode(json)|
  }

  /** `executeAsync`'s request `json://<name>//(<length>)?<content>`, as the
      bytes written to the socket. */
  function FormatRequest(name: string, json: string, unit: LengthUnit): (r: Bytes)
    ensures r == RequestDecoder.Wire(JsonScheme, Utf8.Encode(name), [],
                                     Decimal.Render(ContentLength(json, unit)), Utf8.Encode(json))
  {
    var lengthText := Decimal.Render(ContentLength(json, unit));
    assert forall i :: 0 <= i < |lengthText| ==> lengthText[i] < 128;
    var request := Utf8.Text(JsonScheme) + "://" + name + "/" + "" + "/(" + Utf8.Text(lengthText) + ")?" + json;
    NettyClient.EncodeRequest(JsonScheme, name, "", lengthText, json);
    Utf8.Encode(request)
  }

  /** Counting the content in bytes, the server's replaying decoder reads
      back the name, an empty session id and exactly the JSON body. */
  lemma {:induction false} RequestRoundTrip(name: string, json: string)
    requires forall i :: 0 <= i < |name| ==> name[i] != '/'
    requires |Utf8.Encode(json)| <= Decimal.MAX_INT
    ensures var buf := FormatRequest(name, json, Utf8Bytes);
      var d := RequestDecoder.Run(RequestDecoder.Initial, buf, 0);
      && d.Decoded?
      && d.at == |buf|
      && Logical(d.header) == Frame(JSON, Utf8.Encode(name), [], |Utf8.Encode(json)|, Utf8.Encode(json))
  {
    var body := Utf8.Encode(json);
    var buf := FormatRequest(name, json, Utf8Bytes);
    SchemeReadsBack();
    Utf8.EncodeExcludes(name, '/');
    Decimal.ParseRender(|body|);
    assert At(buf, 0, buf);
    RequestDecoder.RoundTrip(buf, 0, JsonScheme, Utf8.Encode(name), [], Decimal.Render(|body|), body);
  }

  /** Counting UTF-16 units, a body with a non-ASCII character is cut
      short: the server reads only the first `length()` bytes of it, and
      the rest is left over as the start of the next request. */
  lemma {:induction false} RequestTruncated(name: string, json: string)
    requires forall i :: 0 <= i < |name| ==> name[i] != '/'
    requires |Utf8.Encode(json)| <= Decimal.MAX_INT
    requires !IsAsciiString(json)
    ensures var buf := FormatRequest(name, json, Utf16Units);
      var body := Utf8.Encode(json);
      var n := Utf8.Utf16Length(json);
      var d := RequestDecoder.Run(RequestDecoder.Initial, buf, 0);
      && n < |body|
      && d.Decoded?
      && d.at == |buf| - (|body| - n)
      && Data(d.header.content) == body[..n]
      && Data(d.header.content) != body
  {
    var body := Utf8.Encode(json);
    var n := Utf8.Utf16Length(json);
    Utf8.Utf16Shorter(json);
    var lengthText := Decimal.Render(n);
    var buf := FormatRequest(name, json, Utf16Units);
    var w := RequestDecoder.Wire(JsonScheme, Utf8.Encode(name), [], lengthText, body[..n]);
    assert buf == w + body[n..];
    assert At(buf, 0, w);
    SchemeReadsBack();
    Utf8.EncodeExcludes(name, '/');
    Decimal.ParseRender(n);
    RequestDecoder.RoundTrip(buf, 0, JsonScheme, Utf8.Encode(name), [], lengthText, body[..n]);
  }

  lemma SchemeReadsBack()
    ensures Frames.ValueOf(ToUpper(JsonScheme)) == Some(JSON)
    ensures Excludes(JsonScheme, Ascii.COLON)
  {
    assert ToUpper(JsonScheme) == Name(JSON);
  }

  // ---------------------------------------------------------------------
  // The response parser.

  /** How the content is measured: as written (one byte is taken in
      `QUESTION_MARK` and a second before the first comparison), or
      comparing before each content byte is read. */
  datatype Reading = AsWritten | Exact

  /** The parser's part, its buffer's readable bytes and the length read. */
  datatype TaskState = TaskState(part: ClientPart, buffer: Bytes, length: int)

  const Start: TaskState := TaskState(MIME_TYPE, [], 0)

  datatype TaskError =
    | EndOfStream
    | NotJson(mime: Bytes)
    | WrongByte(expected: Byte, actual: Byte)
    | NotADigit(actual: Byte)
    | NotANumber(text: Bytes)

  datatype StepResult = Continue(state: TaskState) | Done(content: Bytes) | Stop(error: TaskError)

  /** `read()`: the next byte, or end of stream; `(byte) stream.read()`
      also equals `-1` for a data byte `0xFF`. */
  function Read(stream: Bytes, i: nat): (r: Option<Byte>)
    ensures r.Some? <==> i < |stream| && stream[i] != 255
    ensures r.Some? ==> r.value == stream[i]
  {
    if i < |stream| && stream[i] != 255 then Some(stream[i]) else None
  }

  /** The buffer after `writeByte(c)` and `skipBytes(1)`. */
  function WriteSkip(b: Bytes, c: Byte): Bytes {
    (b + [c])[1..]
  }

  /** One pass of the `while (true)` loop after `c` has been read and
      written, with `json` the bytes of `MimeType.JSON.toString()`. */
  function TaskStep(s: TaskState, c: Byte, json: Bytes, reading: Reading): (r: StepResult)
    ensures r.Done? ==> s.part in {RIGHT_PARENTHESIS, CONTENT}
    ensures r.Done? && reading == AsWritten ==> s.part == CONTENT
    ensures r.Done? ==> |r.content| >= s.length
  {
    match s.part
    case MIME_TYPE =>
      if c != Ascii.COLON then Continue(s.(buffer := s.buffer + [c]))
      else if s.buffer != json then Stop(NotJson(s.buffer))
      else Continue(TaskState(COLON, [], s.length))
    case COLON =>
      if c != SLASH then Stop(WrongByte(SLASH, c))
      else Continue(TaskState(FIRST_SLASH, WriteSkip(s.buffer, c), s.length))
    case FIRST_SLASH =>
      if c != SLASH then Stop(WrongByte(SLASH, c))
      else Continue(TaskState(SECOND_SLASH, WriteSkip(s.buffer, c), s.length))
    case SECOND_SLASH =>
      if c != LEFT_PAREN then Stop(WrongByte(LEFT_PAREN, c))
      else Continue(TaskState(LEFT_PARENTHESIS, WriteSkip(s.buffer, c), s.length))
    case LEFT_PARENTHESIS =>
      if !IsDigit(c) then Stop(NotADigit(c))
      else Continue(TaskState(CONTENT_LENGTH, s.buffer + [c], s.length))
    case CONTENT_LENGTH =>
      if c == RIGHT_PAREN then
        match Decimal.ParseInt(s.buffer)
        case None => Stop(NotANumber(s.buffer))
        case Some(v) => Continue(TaskState(RIGHT_PARENTHESIS, [], v))
      else if !IsDigit(c) then Stop(NotADigit(c))
      else Continue(s.(buffer := s.buffer + [c]))
    case RIGHT_PARENTHESIS =>
      if c != QUESTION then Stop(WrongByte(QUESTION, c))
      else
        var b := WriteSkip(s.buffer, c);
        if reading == AsWritten then Continue(TaskState(QUESTION_MARK, b, s.length))
        else if |b| >= s.length then Done(b)
        else Continue(TaskState(CONTENT, b, s.length))
    case QUESTION_MARK =>
      Continue(TaskState(CONTENT, s.buffer + [c], s.length))
    case CONTENT =>
      var b := s.buffer + [c];
      if |b| >= s.length then Done(b) else Continue(s.(buffer := b))
  }

  datatype TaskResult = Returned(content: Bytes, consumed: nat) | Threw(error: TaskError)

  /** The loop from byte `i` of the stream on. */
  function Task(stream: Bytes, i: nat, s: TaskState, json: Bytes, reading: Reading): (r: TaskResult)
    ensures r.Returned? ==> i < r.consumed <= |stream|
    ensures r.Returned? ==> Excludes(stream[i..r.consumed], 255)
    decreases |stream| - i
  {
    match Read(stream, i)
    case None => Threw(EndOfStream)
    case Some(c) =>
      match TaskStep(s, c, json, reading)
      case Stop(e) => Threw(e)
      case Done(content) => Returned(content, i + 1)
      case Continue(next) =>
        var r := Task(stream, i + 1, next, json, reading);
        if r.Returned? then
          assert stream[i..r.consumed] == [c] + stream[i + 1..r.consumed];
          r
        else r
  }

  /** `ExecutionTask.call` on a fresh stream: the content text it hands to
      Jackson and how many bytes it took, or what it throws. */
  function Call(stream: Bytes, json: Bytes, reading: Reading): (r: TaskResult)
    ensures r.Returned? ==> r.consumed <= |stream| && Excludes(stream[..r.consumed], 255)
  {
    Task(stream, 0, Start, json, reading)
  }

  // ---------------------------------------------------------------------
  // What the parser makes of a response.

  /** A response the client can take apart: a mime text without `:` and
      no byte `0xFF` outside the length field, which has none. */
  predicate Parsable(json: Bytes, content: Bytes) {
    && Excludes(json, Ascii.COLON)
    && Excludes(json, 255)
    && Excludes(content, 255)
    && |content| <= Decimal.MAX_INT
  }

  /** Reading the content length the server wrote, the client returns
      exactly the content and stops at its end, whatever follows: always
      when it compares before each content byte, and as written when the
      content has at least two bytes. */
  lemma {:induction false} ResponseRoundTrip(json: Bytes, content: Bytes, rest: Bytes, reading: Reading)
    requires Parsable(json, content)
    requires reading == Exact || |content| >= 2
    ensures var w := ResponseWire(json, Decimal.Render(|content|), content);
      Call(w + rest, json, reading) == Returned(content, |w|)
  {
    var n := |content|;
    var lengthText := Decimal.Render(n);
    var stream := ResponseWire(json, lengthText, content) + rest;
    var q := |json| + 4 + |lengthText| + 1;
    Decimal.ParseRender(n);
    ResponseFacts(json, content, rest);
    ReadHeader(stream, json, lengthText, n, reading);
    ReadBody(stream, q, n, json, reading);
  }

  /** The header and the content of a response followed by `rest`. */
  lemma {:induction false} ResponseFacts(json: Bytes, content: Bytes, rest: Bytes)
    requires Excludes(content, 255)
    ensures var lengthText := Decimal.Render(|content|);
      var stream := ResponseWire(json, lengthText, content) + rest;
      var q := |json| + 4 + |lengthText| + 1;
      && |stream| == q + 1 + |content| + |rest|
      && At(stream, 0, json + [Ascii.COLON, SLASH, SLASH, LEFT_PAREN] + lengthText + [RIGHT_PAREN, QUESTION])
      && stream[q] == QUESTION
      && stream[q + 1..q + 1 + |content|] == content
      && stream[q + 1 + |content|..] == rest
      && (forall k :: q + 1 <= k < q + 1 + |content| ==> stream[k] != 255)
  {
    var n := |content|;
    var lengthText := Decimal.Render(n);
    var h := json + [Ascii.COLON, SLASH, SLASH, LEFT_PAREN] + lengthText + [RIGHT_PAREN, QUESTION];
    var stream := ResponseWire(json, lengthText, content) + rest;
    var q := |json| + 4 + |lengthText| + 1;
    assert stream == h + content + rest;
    assert stream[..q + 1] == h;
    assert stream[q + 1..q + 1 + n] == content;
    forall k | q + 1 <= k < q + 1 + n
      ensures stream[k] != 255
    {
      assert stream[k] == content[k - (q + 1)];
    }
  }

  /** From the `?` on: the content the parser returns when the length
      field says `n`. */
  lemma {:induction false} ReadBody(stream: Bytes, q: nat, n: int, json: Bytes, reading: Reading)
    requires 0 <= n && q + 1 + n <= |stream| && stream[q] == QUESTION
    requires forall k :: q + 1 <= k < q + 1 + n ==> stream[k] != 255
    requires reading == Exact || n >= 2
    ensures Task(stream, q, TaskState(RIGHT_PARENTHESIS, [], n), json, reading)
         == Returned(stream[q + 1..q + 1 + n], q + 1 + n)
  {
    if reading == Exact {
      ReadBodyExact(stream, q, n, json);
    } else {
      ReadBodyAsWritten(stream, q, n, json);
    }
  }

  lemma {:induction false} ReadBodyExact(stream: Bytes, q: nat, n: int, json: Bytes)
    requires 0 <= n && q + 1 + n <= |stream| && stream[q] == QUESTION
    requires forall k :: q + 1 <= k < q + 1 + n ==> stream[k] != 255
    ensures Task(stream, q, TaskState(RIGHT_PARENTHESIS, [], n), json, Exact)
         == Returned(stream[q + 1..q + 1 + n], q + 1 + n)
  {
    var s := TaskState(RIGHT_PARENTHESIS, [], n);
    if n == 0 {
      assert TaskStep(s, QUESTION, json, Exact) == Done([]);
    } else {
      assert TaskStep(s, QUESTION, json, Exact) == Continue(TaskState(CONTENT, [], n));
      ReadContent(stream, q + 1, [], n, json, Exact);
    }
  }

  lemma {:induction false} ReadBodyAsWritten(stream: Bytes, q: nat, n: int, json: Bytes)
    requires 2 <= n && q + 1 + n <= |stream| && stream[q] == QUESTION
    requires forall k :: q + 1 <= k < q + 1 + n ==> stream[k] != 255
    ensures Task(stream, q, TaskState(RIGHT_PARENTHESIS, [], n), json, AsWritten)
         == Returned(stream[q + 1..q + 1 + n], q + 1 + n)
  {
    var s := TaskState(RIGHT_PARENTHESIS, [], n);
    assert TaskStep(s, QUESTION, json, AsWritten) == Continue(TaskState(QUESTION_MARK, [], n));
    var c := stream[q + 1];
    assert TaskStep(TaskState(QUESTION_MARK, [], n), c, json, AsWritten) == Continue(TaskState(CONTENT, [c], n));
    assert Task(stream, q + 1, TaskState(QUESTION_MARK, [], n), json, AsWritten)
        == Task(stream, q + 2, TaskState(CONTENT, [c], n), json, AsWritten);
    ReadContent(stream, q + 2, [c], n, json, AsWritten);
    assert [c] + stream[q + 2..q + 1 + n] == stream[q + 1..q + 1 + n];
  }

  /** What `LegacyContentEncoder` writes for a JSON result, the socket
      client hands back whole, when the result's bytes are UTF-8 text (which
      never holds `0xFF`) and, as written, of at least two bytes. */
  lemma {:induction false} ContentEncoderToSocket(c: Content, body: string, rest: Bytes, reading: Reading)
    requires c.bytes == Utf8.Encode(body)
    requires Excludes(Utf8.Encode(c.mimeName), Ascii.COLON)
    requires |c.bytes| <= Decimal.MAX_INT
    requires reading == Exact || |c.bytes| >= 2
    ensures var out := EncodeContent(ContentMessage(c)).bytes;
      Call(out + rest, Utf8.Encode(c.mimeName), reading) == Returned(c.bytes, |out|)
  {
    Utf8.EncodeNoFF(c.mimeName);
    Utf8.EncodeNoFF(body);
    ResponseRoundTrip(Utf8.Encode(c.mimeName), c.bytes, rest, reading);
  }

  /** As written, a content of fewer than two bytes is not where the
      parser stops: it takes `2 - length` bytes of whatever follows into
      the content. */
  lemma {:induction false} ResponseOverRead(json: Bytes, content: Bytes, rest: Bytes)
    requires Parsable(json, content)
    requires |content| <= 1
    requires |rest| >= 2 - |content| && Excludes(rest[..2 - |content|], 255)
    ensures var w := ResponseWire(json, Decimal.Render(|content|), content);
      Call(w + rest, json, AsWritten) == Returned(content + rest[..2 - |content|], |w| + 2 - |content|)
  {
    var n := |content|;
    var lengthText := Decimal.Render(n);
    var w := ResponseWire(json, lengthText, content);
    var stream := w + rest;
    var q := |json| + 4 + |lengthText| + 1;
    Decimal.ParseRender(n);
    assert At(stream, 0, json + [Ascii.COLON, SLASH, SLASH, LEFT_PAREN] + lengthText + [RIGHT_PAREN, QUESTION]) by {
      assert stream[..q + 1] == json + [Ascii.COLON, SLASH, SLASH, LEFT_PAREN] + lengthText + [RIGHT_PAREN, QUESTION];
    }
    ReadHeader(stream, json, lengthText, n, AsWritten);
    assert stream[q + 1..q + 3] == content + rest[..2 - n];
    var c := stream[q + 1];
    var d := stream[q + 2];
    assert c != 255 && d != 255 by {
      if n == 0 {
        assert c == rest[0] && d == rest[1];
      } else {
        assert c == content[0] && d == rest[0];
      }
    }
    var s := TaskState(RIGHT_PARENTHESIS, [], n);
    assert TaskStep(s, QUESTION, json, AsWritten) == Continue(TaskState(QUESTION_MARK, [], n));
    assert Task(stream, q + 1, TaskState(QUESTION_MARK, [], n), json, AsWritten)
        == Task(stream, q + 2, TaskState(CONTENT, [c], n), json, AsWritten);
    assert Task(stream, q + 2, TaskState(CONTENT, [c], n), json, AsWritten) == Returned([c, d], q + 3);
  }

  /** As written, a complete response of fewer than two content bytes with
      nothing after it ends in `Reached end of stream`. */
  lemma {:induction false} ShortResponseStalls(json: Bytes, content: Bytes)
    requires Parsable(json, content)
    requires |content| <= 1
    ensures Call(ResponseWire(json, Decimal.Render(|content|), content), json, AsWritten) == Threw(EndOfStream)
  {
    var n := |content|;
    var lengthText := Decimal.Render(n);
    var stream := ResponseWire(json, lengthText, content);
    var q := |json| + 4 + |lengthText| + 1;
    Decimal.ParseRender(n);
    assert At(stream, 0, json + [Ascii.COLON, SLASH, SLASH, LEFT_PAREN] + lengthText + [RIGHT_PAREN, QUESTION]) by {
      assert stream[..q + 1] == json + [Ascii.COLON, SLASH, SLASH, LEFT_PAREN] + lengthText + [RIGHT_PAREN, QUESTION];
    }
    ReadHeader(stream, json, lengthText, n, AsWritten);
    assert |stream| == q + 1 + n;
    var s := TaskState(RIGHT_PARENTHESIS, [], n);
    assert TaskStep(s, QUESTION, json, AsWritten) == Continue(TaskState(QUESTION_MARK, [], n));
    if n == 1 {
      var c := stream[q + 1];
      assert c == content[0];
      assert Task(stream, q + 1, TaskState(QUESTION_MARK, [], n), json, AsWritten)
          == Task(stream, q + 2, TaskState(CONTENT, [c], n), json, AsWritten);
    }
  }

  /** A response of another mime type is refused at its `:`. */
  lemma {:induction false} RejectsOtherMime(mime: Bytes, json: Bytes, tail: Bytes, reading: Reading)
    requires Excludes(mime, Ascii.COLON) && Excludes(mime, 255) && mime != json
    ensures Call(mime + [Ascii.COLON] + tail, json, reading) == Threw(NotJson(mime))
  {
    var stream := mime + [Ascii.COLON] + tail;
    var j := |mime|;
    assert stream[0..j] == mime;
    forall k | 0 <= k < j
      ensures stream[k] != Ascii.COLON && stream[k] != 255
    {
      assert stream[k] == mime[k];
    }
    ScanMimeUntil(stream, 0, j, [], json, reading);
    assert [] + stream[0..j] == mime;
  }

  // ---------------------------------------------------------------------
  // Segments of a response.

  /** From the first byte to the `RIGHT_PARENTHESIS` part with the length
      read. */
  lemma {:induction false} ReadHeader(stream: Bytes, json: Bytes, lengthText: Bytes, n: int, reading: Reading)
    requires At(stream, 0, json + [Ascii.COLON, SLASH, SLASH, LEFT_PAREN] + lengthText + [RIGHT_PAREN, QUESTION])
    requires Excludes(json, Ascii.COLON) && Excludes(json, 255)
    requires Decimal.ParseInt(lengthText) == Some(n) && Decimal.AllDigits(lengthText)
    ensures Task(stream, 0, Start, json, reading)
         == Task(stream, |json| + 4 + |lengthText| + 1, TaskState(RIGHT_PARENTHESIS, [], n), json, reading)
  {
    var a := |json|;
    var e := a + 4 + |lengthText|;
    HeaderFacts(stream, json, lengthText);
    ScanMime(stream, 0, a, [], json, reading);
    ReadDelimiters(stream, a, json, reading);
    var d0 := stream[a + 4];
    assert [d0] + stream[a + 5..e] == lengthText;
    ScanDigits(stream, a + 5, e, [d0], n, json, reading);
  }

  /** Where the fields of a response header sit in the stream. */
  lemma {:induction false} HeaderFacts(stream: Bytes, json: Bytes, lengthText: Bytes)
    requires At(stream, 0, json + [Ascii.COLON, SLASH, SLASH, LEFT_PAREN] + lengthText + [RIGHT_PAREN, QUESTION])
    requires Excludes(json, Ascii.COLON) && Excludes(json, 255)
    requires Decimal.AllDigits(lengthText) && |lengthText| >= 1
    ensures var a := |json|;
      var e := a + 4 + |lengthText|;
      && e + 2 <= |stream|
      && stream[0..a] == json
      && (forall k :: 0 <= k < a ==> stream[k] != Ascii.COLON && stream[k] != 255)
      && stream[a] == Ascii.COLON && stream[a + 1] == SLASH && stream[a + 2] == SLASH
      && stream[a + 3] == LEFT_PAREN && IsDigit(stream[a + 4])
      && [stream[a + 4]] + stream[a + 5..e] == lengthText
      && (forall k :: a + 5 <= k < e ==> IsDigit(stream[k]))
      && stream[e] == RIGHT_PAREN && stream[e + 1] == QUESTION
  {
    var h := json + [Ascii.COLON, SLASH, SLASH, LEFT_PAREN] + lengthText + [RIGHT_PAREN, QUESTION];
    var a := |json|;
    var e := a + 4 + |lengthText|;
    HeaderLayout(json, lengthText);
    AtSlice(stream, 0, h, 0, a);
    forall k | 0 <= k < a
      ensures stream[k] != Ascii.COLON && stream[k] != 255
    {
      AtByte(stream, 0, h, k);
    }
    AtByte(stream, 0, h, a);
    AtByte(stream, 0, h, a + 1);
    AtByte(stream, 0, h, a + 2);
    AtByte(stream, 0, h, a + 3);
    AtByte(stream, 0, h, e);
    AtByte(stream, 0, h, e + 1);
    AtSlice(stream, 0, h, a + 4, e);
    assert stream[a + 4..e] == [stream[a + 4]] + stream[a + 5..e];
    forall k | a + 5 <= k < e
      ensures IsDigit(stream[k])
    {
      AtByte(stream, 0, h, k);
    }
  }

  lemma {:induction false} HeaderLayout(json: Bytes, lengthText: Bytes)
    ensures var h := json + [Ascii.COLON, SLASH, SLASH, LEFT_PAREN] + lengthText + [RIGHT_PAREN, QUESTION];
      var a := |json|;
      var e := a + 4 + |lengthText|;
      && |h| == e + 2
      && h[0..a] == json
      && (forall k :: 0 <= k < a ==> h[k] == json[k])
      && h[a] == Ascii.COLON && h[a + 1] == SLASH && h[a + 2] == SLASH && h[a + 3] == LEFT_PAREN
      && h[a + 4..e] == lengthText
      && (forall k :: a + 4 <= k < e ==> h[k] == lengthText[k - (a + 4)])
      && h[e] == RIGHT_PAREN && h[e + 1] == QUESTION
  {
  }

  /** `://(` and the first digit, from the `COLON` part. */
  lemma {:induction false} ReadDelimiters(stream: Bytes, a: nat, json: Bytes, reading: Reading)
    requires a + 5 <= |stream|
    requires stream[a + 1] == SLASH && stream[a + 2] == SLASH
    requires stream[a + 3] == LEFT_PAREN && IsDigit(stream[a + 4])
    ensures Task(stream, a + 1, TaskState(COLON, [], 0), json, reading)
         == Task(stream, a + 5, TaskState(CONTENT_LENGTH, [stream[a + 4]], 0), json, reading)
  {
    var d := stream[a + 4];
    assert WriteSkip([], SLASH) == [] && WriteSkip([], LEFT_PAREN) == [];
    TaskContinue(stream, a + 1, TaskState(COLON, [], 0), TaskState(FIRST_SLASH, [], 0), json, reading);
    TaskContinue(stream, a + 2, TaskState(FIRST_SLASH, [], 0), TaskState(SECOND_SLASH, [], 0), json, reading);
    TaskContinue(stream, a + 3, TaskState(SECOND_SLASH, [], 0), TaskState(LEFT_PARENTHESIS, [], 0), json, reading);
    assert [] + [d] == [d];
    TaskContinue(stream, a + 4, TaskState(LEFT_PARENTHESIS, [], 0), TaskState(CONTENT_LENGTH, [d], 0), json, reading);
  }

  /** A byte the loop reads and continues past. */
  lemma {:induction false} TaskContinue(stream: Bytes, i: nat, s: TaskState, next: TaskState, json: Bytes, reading: Reading)
    requires i < |stream| && stream[i] != 255
    requires TaskStep(s, stream[i], json, reading) == Continue(next)
    ensures Task(stream, i, s, json, reading) == Task(stream, i + 1, next, json, reading)
  {
  }

  /** Bytes before the first `:` collect in the buffer; at the `:` they
      are compared with `json`. */
  lemma {:induction false} ScanMimeUntil(stream: Bytes, i: nat, j: nat, b: Bytes, json: Bytes, reading: Reading)
    requires i <= j < |stream| && stream[j] == Ascii.COLON
    requires forall k :: i <= k < j ==> stream[k] != Ascii.COLON && stream[k] != 255
    ensures var mime := b + stream[i..j];
      Task(stream, i, TaskState(MIME_TYPE, b, 0), json, reading)
      == if mime == json then Task(stream, j + 1, TaskState(COLON, [], 0), json, reading)
         else Threw(NotJson(mime))
    decreases j - i
  {
    if i == j {
      assert b + stream[i..j] == b;
      assert Read(stream, j) == Some(Ascii.COLON);
    } else {
      var c := stream[i];
      assert TaskStep(TaskState(MIME_TYPE, b, 0), c, json, reading) == Continue(TaskState(MIME_TYPE, b + [c], 0));
      assert stream[i..j] == [c] + stream[i + 1..j];
      assert (b + [c]) + stream[i + 1..j] == b + stream[i..j];
      ScanMimeUntil(stream, i + 1, j, b + [c], json, reading);
    }
  }

  lemma {:induction false} ScanMime(stream: Bytes, i: nat, j: nat, b: Bytes, json: Bytes, reading: Reading)
    requires i <= j < |stream| && stream[j] == Ascii.COLON
    requires forall k :: i <= k < j ==> stream[k] != Ascii.COLON && stream[k] != 255
    requires b + stream[i..j] == json
    ensures Task(stream, i, TaskState(MIME_TYPE, b, 0), json, reading)
         == Task(stream, j + 1, TaskState(COLON, [], 0), json, reading)
  {
    ScanMimeUntil(stream, i, j, b, json, reading);
  }

  /** Digits collect in the buffer; at the `)` they are parsed. */
  lemma {:induction false} ScanDigits(stream: Bytes, i: nat, e: nat, b: Bytes, n: int, json: Bytes, reading: Reading)
    requires i <= e < |stream| && stream[e] == RIGHT_PAREN
    requires forall k :: i <= k < e ==> IsDigit(stream[k])
    requires Decimal.ParseInt(b + stream[i..e]) == Some(n)
    ensures Task(stream, i, TaskState(CONTENT_LENGTH, b, 0), json, reading)
         == Task(stream, e + 1, TaskState(RIGHT_PARENTHESIS, [], n), json, reading)
    decreases e - i
  {
    if i == e {
      assert b + stream[i..e] == b;
      ScanDigitsClose(stream, e, b, n, json, reading);
    } else {
      var c := stream[i];
      ScanDigitsStep(stream, i, b, json, reading);
      assert stream[i..e] == [c] + stream[i + 1..e];
      assert (b + [c]) + stream[i + 1..e] == b + stream[i..e];
      ScanDigits(stream, i + 1, e, b + [c], n, json, reading);
    }
  }

  lemma ScanDigitsClose(stream: Bytes, e: nat, b: Bytes, n: int, json: Bytes, reading: Reading)
    requires e < |stream| && stream[e] == RIGHT_PAREN
    requires Decimal.ParseInt(b) == Some(n)
    ensures Task(stream, e, TaskState(CONTENT_LENGTH, b, 0), json, reading)
         == Task(stream, e + 1, TaskState(RIGHT_PARENTHESIS, [], n), json, reading)
  {
    assert Read(stream, e) == Some(RIGHT_PAREN);
  }

  lemma ScanDigitsStep(stream: Bytes, i: nat, b: Bytes, json: Bytes, reading: Reading)
    requires i < |stream| && IsDigit(stream[i])
    ensures Task(stream, i, TaskState(CONTENT_LENGTH, b, 0), json, reading)
         == Task(stream, i + 1, TaskState(CONTENT_LENGTH, b + [stream[i]], 0), json, reading)
  {
    assert Read(stream, i) == Some(stream[i]);
    assert TaskStep(TaskState(CONTENT_LENGTH, b, 0), stream[i], json, reading)
        == Continue(TaskState(CONTENT_LENGTH, b + [stream[i]], 0));
  }

  /** Content bytes collect until the buffer holds `n`. */
  lemma {:induction false} ReadContent(stream: Bytes, i: nat, b: Bytes, n: int, json: Bytes, reading: Reading)
    requires |b| < n && i + (n - |b|) <= |stream|
    requires forall k :: i <= k < i + (n - |b|) ==> stream[k] != 255
    ensures Task(stream, i, TaskState(CONTENT, b, n), json, reading)
         == Returned(b + stream[i..i + (n - |b|)], i + (n - |b|))
    decreases n - |b|
  {
    var c := stream[i];
    var m := i + (n - |b|);
    if |b| + 1 == n {
      assert stream[i..m] == [c];
    } else {
      assert stream[i..m] == [c] + stream[i + 1..m];
      ReadContent(stream, i + 1, b + [c], n, json, reading);
    }
  }
}
