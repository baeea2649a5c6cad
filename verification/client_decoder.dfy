/** The client's replaying response decoder over
    `<mime>://(<contentLength>)?<content>`, and the header decoder behind it
    that turns a JSON response into a list or a map. Unlike the server's
    request decoder, every delimiter stage consumes its byte with
    `readByte`. */
module ClientDecoder {

  import opened Wrappers
  import opened Bytes
  import Ascii = Bytes
  import Decimal
  import opened Frames
  import opened ResponseEncoder
  import Utf8

  /** The client's checkpoints, in wire order. */
  datatype ClientPart =
    | MIME_TYPE | COLON | FIRST_SLASH | SECOND_SLASH | LEFT_PARENTHESIS
    | CONTENT_LENGTH | RIGHT_PARENTHESIS | QUESTION_MARK | CONTENT

  function Ordinal(p: ClientPart): nat {
    match p
    case MIME_TYPE => 0
    case COLON => 1
    case FIRST_SLASH => 2
    case SECOND_SLASH => 3
    case LEFT_PARENTHESIS => 4
    case CONTENT_LENGTH => 5
    case RIGHT_PARENTHESIS => 6
    case QUESTION_MARK => 7
    case CONTENT => 8
  }

  /** The checkpoint and the fields read so far. */
  datatype Decoder = Decoder(part: ClientPart, mimeType: Option<Bytes>, length: int)

  const Initial: Decoder := Decoder(MIME_TYPE, None, 0)

  /** The mime type is read before every later checkpoint. */
  predicate Consistent(d: Decoder) {
    d.part != MIME_TYPE ==> d.mimeType.Some?
  }

  /** A decoded response: the mime text and a view of the content. */
  datatype ClientHeader = ClientHeader(mimeType: Bytes, content: View)

  datatype ClientError =
    | Unexpected(expected: Byte, actual: Byte)
    | BadLength(text: Bytes)
    | NegativeLength(length: int)

  datatype Step =
    | Replay
    | Fail(error: ClientError)
    | Advance(next: Decoder, at: nat)
    | Emit(header: ClientHeader, at: nat)

  /** `readByte` and `checkState(c == expected)`. */
  function Expect(d: Decoder, buf: Bytes, pos: nat, c: Byte, next: ClientPart): (r: Step)
    requires pos <= |buf|
    ensures r.Advance? <==> pos < |buf| && buf[pos] == c
    ensures r.Advance? ==> r == Advance(d.(part := next), pos + 1)
    ensures r.Replay? <==> pos == |buf|
    ensures r.Fail? ==> r.error == Unexpected(c, buf[pos])
  {
    if pos == |buf| then Replay
    else if buf[pos] != c then Fail(Unexpected(c, buf[pos]))
    else Advance(d.(part := next), pos + 1)
  }

  /** The stage the checkpoint names, with the reader index at `pos`. */
  function Stage(d: Decoder, buf: Bytes, pos: nat): (r: Step)
    requires pos <= |buf| && Consistent(d)
    ensures r.Advance? ==> pos <= r.at <= |buf| && Consistent(r.next)
    ensures r.Advance? ==> Ordinal(r.next.part) == Ordinal(d.part) + 1
    ensures r.Emit? ==>
      && d.part == CONTENT && 0 <= d.length && r.at == pos + d.length <= |buf|
      && Data(r.header.content) == buf[pos..r.at]
  {
    match d.part
    case MIME_TYPE =>
      (match IndexOf(buf, pos, Ascii.COLON)
       case None => Replay
       case Some(i) => Advance(d.(part := COLON, mimeType := Some(buf[pos..i])), i))
    case COLON => Expect(d, buf, pos, Ascii.COLON, FIRST_SLASH)
    case FIRST_SLASH => Expect(d, buf, pos, SLASH, SECOND_SLASH)
    case SECOND_SLASH => Expect(d, buf, pos, SLASH, LEFT_PARENTHESIS)
    case LEFT_PARENTHESIS => Expect(d, buf, pos, LEFT_PAREN, CONTENT_LENGTH)
    case CONTENT_LENGTH =>
      (match IndexOf(buf, pos, RIGHT_PAREN)
       case None => Replay
       case Some(i) =>
         match Decimal.ParseInt(buf[pos..i])
         case None => Fail(BadLength(buf[pos..i]))
         case Some(n) => Advance(d.(part := RIGHT_PARENTHESIS, length := n), i))
    case RIGHT_PARENTHESIS => Expect(d, buf, pos, RIGHT_PAREN, QUESTION_MARK)
    case QUESTION_MARK => Expect(d, buf, pos, QUESTION, CONTENT)
    case CONTENT =>
      if d.length < 0 then Fail(NegativeLength(d.length))
      else if pos + d.length > |buf| then Replay
      else Emit(ClientHeader(d.mimeType.value, View(buf, pos, d.length)), pos + d.length)
  }

  datatype Outcome =
    | NeedMore(checkpoint: Decoder, at: nat)
    | Failed(error: ClientError)
    | Decoded(header: ClientHeader, at: nat)

  /** One `decode` call: the stages fall through from the checkpoint until
      one replays, throws or returns a header; the checkpoint then goes back
      to `MIME_TYPE`. */
  function Run(d: Decoder, buf: Bytes, pos: nat): (r: Outcome)
    requires pos <= |buf| && Consistent(d)
    ensures r.NeedMore? ==> pos <= r.at <= |buf| && Consistent(r.checkpoint)
    ensures r.Decoded? ==> pos <= r.at <= |buf|
    ensures r.Decoded? ==>
      && r.header.content.size <= r.at
      && Data(r.header.content) == buf[r.at - r.header.content.size..r.at]
    decreases 8 - Ordinal(d.part)
  {
    match Stage(d, buf, pos)
    case Replay => NeedMore(d, pos)
    case Fail(e) => Failed(e)
    case Advance(next, at) => Run(next, buf, at)
    case Emit(h, at) => Decoded(h, at)
  }

  // ---------------------------------------------------------------------
  // Round trip with the encoders.

  /** What the client should get back from a response. */
  predicate ReadableResponse(mime: Bytes, lengthText: Bytes, content: Bytes) {
    && Excludes(mime, Ascii.COLON)
    && Decimal.ParseInt(lengthText) == Some(|content|)
  }

  /** Decoding a response yields its mime text and its content and consumes
      exactly its bytes, whatever follows. */
  lemma {:induction false} RoundTrip(buf: Bytes, pos: nat, mime: Bytes, lengthText: Bytes, content: Bytes)
    requires ReadableResponse(mime, lengthText, content)
    requires At(buf, pos, ResponseWire(mime, lengthText, content))
    ensures var r := Run(Initial, buf, pos);
      && r.Decoded?
      && r.at == pos + |ResponseWire(mime, lengthText, content)|
      && r.header.mimeType == mime
      && r.header.content == View(buf, r.at - |content|, |content|)
      && Data(r.header.content) == content
  {
    MimeOnWire(buf, pos, mime, lengthText, content);
    LengthOnWire(buf, pos, mime, lengthText, content);
    ContentOnWire(buf, pos, mime, lengthText, content);
  }

  /** A call from checkpoint `d0` with the reader at `p0` ends as one from
      `d1` at `p1`. */
  predicate SameOutcome(buf: Bytes, d0: Decoder, p0: nat, d1: Decoder, p1: nat) {
    && p0 <= |buf| && Consistent(d0) && p1 <= |buf| && Consistent(d1)
    && Run(d0, buf, p0) == Run(d1, buf, p1)
  }

  lemma {:induction false} MimeOnWire(buf: Bytes, pos: nat, mime: Bytes, lengthText: Bytes, content: Bytes)
    requires Excludes(mime, Ascii.COLON)
    requires At(buf, pos, ResponseWire(mime, lengthText, content))
    ensures SameOutcome(buf, Initial, pos, Decoder(SECOND_SLASH, Some(mime), 0), pos + |mime| + 2)
  {
    MimeFound(buf, pos, mime, lengthText, content);
    ReadMimeSegment(buf, pos, pos + |mime|, pos + |mime| + 2, mime);
  }

  /** `<mime>:/` starts at `pos`: the mime text runs up to the first colon
      at `a`, a slash follows, and the next byte is at `f`. */
  predicate MimeSegmentAt(buf: Bytes, pos: nat, a: nat, f: nat, mime: Bytes) {
    && pos <= a && f == a + 2 && f <= |buf|
    && IndexOf(buf, pos, Ascii.COLON) == Some(a) && buf[pos..a] == mime && buf[a + 1] == SLASH
  }

  lemma {:induction false} MimeFound(buf: Bytes, pos: nat, mime: Bytes, lengthText: Bytes, content: Bytes)
    requires Excludes(mime, Ascii.COLON)
    requires At(buf, pos, ResponseWire(mime, lengthText, content))
    ensures MimeSegmentAt(buf, pos, pos + |mime|, pos + |mime| + 2, mime)
  {
    var w := ResponseWire(mime, lengthText, content);
    assert w[..|mime|] == mime;
    AtSlice(buf, pos, w, 0, |mime|);
    AtByte(buf, pos, w, |mime|);
    AtByte(buf, pos, w, |mime| + 1);
    IndexOfFinds(buf, pos, mime, Ascii.COLON);
  }

  /** `<mime>:/` moves a fresh decoder to the SECOND_SLASH checkpoint. */
  lemma {:induction false} ReadMimeSegment(buf: Bytes, pos: nat, a: nat, f: nat, mime: Bytes)
    requires MimeSegmentAt(buf, pos, a, f, mime)
    ensures SameOutcome(buf, Initial, pos, Decoder(SECOND_SLASH, Some(mime), 0), f)
  {
    var d1 := Decoder(COLON, Some(mime), 0);
    var d2 := d1.(part := FIRST_SLASH);
    var d3 := d1.(part := SECOND_SLASH);
    assert Stage(Initial, buf, pos) == Advance(d1, a);
    assert Stage(d1, buf, a) == Advance(d2, a + 1);
    assert Stage(d2, buf, a + 1) == Advance(d3, f);
    RunThrough3(Initial, pos, d1, a, d2, a + 1, d3, f, buf);
  }

  /** Two stages that advance make one call pass two checkpoints. */
  lemma {:induction false} RunThrough(d0: Decoder, p0: nat, d1: Decoder, p1: nat, d2: Decoder, p2: nat, buf: Bytes)
    requires p0 <= |buf| && Consistent(d0)
    requires Stage(d0, buf, p0) == Advance(d1, p1)
    requires Stage(d1, buf, p1) == Advance(d2, p2)
    ensures SameOutcome(buf, d0, p0, d2, p2)
  {
  }

  /** Three stages that advance make one call pass three checkpoints. */
  lemma {:induction false} RunThrough3(d0: Decoder, p0: nat, d1: Decoder, p1: nat, d2: Decoder, p2: nat,
                                       d3: Decoder, p3: nat, buf: Bytes)
    requires p0 <= |buf| && Consistent(d0)
    requires Stage(d0, buf, p0) == Advance(d1, p1)
    requires Stage(d1, buf, p1) == Advance(d2, p2)
    requires Stage(d2, buf, p2) == Advance(d3, p3)
    ensures SameOutcome(buf, d0, p0, d3, p3)
  {
    RunThrough(d1, p1, d2, p2, d3, p3, buf);
  }

  lemma {:induction false} LengthOnWire(buf: Bytes, pos: nat, mime: Bytes, lengthText: Bytes, content: Bytes)
    requires Decimal.ParseInt(lengthText) == Some(|content|)
    requires At(buf, pos, ResponseWire(mime, lengthText, content))
    ensures SameOutcome(buf, Decoder(SECOND_SLASH, Some(mime), 0), pos + |mime| + 2,
                        Decoder(CONTENT, Some(mime), |content|), pos + |mime| + 6 + |lengthText|)
  {
    LengthFound(buf, pos, mime, lengthText, content);
    ReadLengthSegment(buf, pos + |mime| + 2, pos + |mime| + 4 + |lengthText|,
                      pos + |mime| + 6 + |lengthText|, mime, |content|);
  }

  /** `/(<contentLength>)?` starts at `s`: the length text runs from `s + 2`
      to the first `)` after it, at `e`, parses to `n`, and is followed by
      `?`; the next byte is at `f`. */
  predicate LengthSegmentAt(buf: Bytes, s: nat, e: nat, f: nat, n: int) {
    && s + 2 <= e && f == e + 2 && f <= |buf|
    && buf[s] == SLASH && buf[s + 1] == LEFT_PAREN
    && IndexOf(buf, s + 2, RIGHT_PAREN) == Some(e) && buf[e + 1] == QUESTION
    && Decimal.ParseInt(buf[s + 2..e]) == Some(n)
  }

  lemma {:induction false} LengthFound(buf: Bytes, pos: nat, mime: Bytes, lengthText: Bytes, content: Bytes)
    requires Decimal.ParseInt(lengthText) == Some(|content|)
    requires At(buf, pos, ResponseWire(mime, lengthText, content))
    ensures LengthSegmentAt(buf, pos + |mime| + 2, pos + |mime| + 4 + |lengthText|,
                            pos + |mime| + 6 + |lengthText|, |content|)
  {
    var s := pos + |mime| + 2;
    LengthFacts(buf, pos, mime, lengthText, content, s, s + 2 + |lengthText|);
    Decimal.ParseIntBytes(lengthText, RIGHT_PAREN);
    IndexOfFinds(buf, s + 2, lengthText, RIGHT_PAREN);
  }

  lemma {:induction false} LengthFacts(buf: Bytes, pos: nat, mime: Bytes, lengthText: Bytes, content: Bytes,
                                       s: nat, e: nat)
    requires At(buf, pos, ResponseWire(mime, lengthText, content))
    requires s == pos + |mime| + 2 && e == s + 2 + |lengthText|
    ensures e + 2 <= |buf| && buf[s] == SLASH && buf[s + 1] == LEFT_PAREN
    ensures buf[s + 2..e] == lengthText && buf[e] == RIGHT_PAREN && buf[e + 1] == QUESTION
  {
    var w := ResponseWire(mime, lengthText, content);
    var c := |mime| + 4;
    var back := lengthText + [RIGHT_PAREN, QUESTION];
    assert w == mime + [Ascii.COLON, SLASH, SLASH, LEFT_PAREN] + back + content;
    assert w[c..c + |lengthText|] == lengthText;
    AtSlice(buf, pos, w, c, c + |lengthText|);
    AtByte(buf, pos, w, c - 2);
    AtByte(buf, pos, w, c - 1);
    AtByte(buf, pos, w, c + |lengthText|);
    AtByte(buf, pos, w, c + |lengthText| + 1);
  }

  /** `/(<contentLength>)?` moves the decoder from SECOND_SLASH to CONTENT,
      holding the parsed length. */
  lemma {:induction false} ReadLengthSegment(buf: Bytes, s: nat, e: nat, f: nat, mime: Bytes, n: int)
    requires LengthSegmentAt(buf, s, e, f, n)
    ensures SameOutcome(buf, Decoder(SECOND_SLASH, Some(mime), 0), s, Decoder(CONTENT, Some(mime), n), f)
  {
    var d3 := Decoder(SECOND_SLASH, Some(mime), 0);
    var d6 := Decoder(RIGHT_PARENTHESIS, Some(mime), n);
    LengthStage(buf, s + 2, e, mime, n);
    OpenParenStages(buf, s, mime);
    RunThrough3(d3, s, d3.(part := LEFT_PARENTHESIS), s + 1, d3.(part := CONTENT_LENGTH), s + 2, d6, e, buf);
    CloseParenStages(buf, e, mime, n);
    RunThrough(d6, e, d6.(part := QUESTION_MARK), e + 1, d6.(part := CONTENT), f, buf);
  }

  /** `/(` takes the decoder from SECOND_SLASH to CONTENT_LENGTH. */
  lemma {:induction false} OpenParenStages(buf: Bytes, s: nat, mime: Bytes)
    requires s + 2 <= |buf| && buf[s] == SLASH && buf[s + 1] == LEFT_PAREN
    ensures var d3 := Decoder(SECOND_SLASH, Some(mime), 0);
      && Stage(d3, buf, s) == Advance(d3.(part := LEFT_PARENTHESIS), s + 1)
      && Stage(d3.(part := LEFT_PARENTHESIS), buf, s + 1) == Advance(d3.(part := CONTENT_LENGTH), s + 2)
  {
  }

  /** `)?` takes the decoder from RIGHT_PARENTHESIS to CONTENT. */
  lemma {:induction false} CloseParenStages(buf: Bytes, e: nat, mime: Bytes, n: int)
    requires e + 2 <= |buf| && buf[e] == RIGHT_PAREN && buf[e + 1] == QUESTION
    ensures var d6 := Decoder(RIGHT_PARENTHESIS, Some(mime), n);
      && Stage(d6, buf, e) == Advance(d6.(part := QUESTION_MARK), e + 1)
      && Stage(d6.(part := QUESTION_MARK), buf, e + 1) == Advance(d6.(part := CONTENT), e + 2)
  {
  }

  /** The CONTENT_LENGTH stage reads the digits up to the `)`. */
  lemma {:induction false} LengthStage(buf: Bytes, s: nat, e: nat, mime: Bytes, n: int)
    requires s <= e < |buf|
    requires IndexOf(buf, s, RIGHT_PAREN) == Some(e)
    requires Decimal.ParseInt(buf[s..e]) == Some(n)
    ensures Stage(Decoder(CONTENT_LENGTH, Some(mime), 0), buf, s)
         == Advance(Decoder(RIGHT_PARENTHESIS, Some(mime), n), e)
  {
  }

  lemma {:induction false} ContentOnWire(buf: Bytes, pos: nat, mime: Bytes, lengthText: Bytes, content: Bytes)
    requires At(buf, pos, ResponseWire(mime, lengthText, content))
    ensures var k := pos + |mime| + 6 + |lengthText|;
      && k + |content| <= |buf|
      && Run(Decoder(CONTENT, Some(mime), |content|), buf, k)
         == Decoded(ClientHeader(mime, View(buf, k, |content|)), k + |content|)
      && Data(View(buf, k, |content|)) == content
  {
    var w := ResponseWire(mime, lengthText, content);
    var k := |mime| + 4 + |lengthText| + 2;
    assert w[k..] == content;
    AtSlice(buf, pos, w, k, |w|);
    var d := Decoder(CONTENT, Some(mime), |content|);
    assert Stage(d, buf, pos + k) == Emit(ClientHeader(mime, View(buf, pos + k, |content|)), pos + k + |content|);
  }

  /** What `LegacyContentEncoder` writes, the client decoder reads back:
      the mime type's name and the content bytes. */
  lemma {:induction false} ContentEncoderRoundTrip(c: Content)
    requires Excludes(Utf8.Encode(c.mimeName), Ascii.COLON)
    requires |c.bytes| <= Decimal.MAX_INT
    ensures var out := EncodeContent(ContentMessage(c)).bytes;
      var r := Run(Initial, out, 0);
      && r.Decoded? && r.at == |out|
      && r.header.mimeType == Utf8.Encode(c.mimeName)
      && r.header.content == View(out, |ContentHeader(c)|, |c.bytes|)
      && Data(r.header.content) == c.bytes
  {
    var out := EncodeContent(ContentMessage(c)).bytes;
    Decimal.ParseRender(|c.bytes|);
    assert At(out, 0, out);
    RoundTrip(out, 0, Utf8.Encode(c.mimeName), Decimal.Render(|c.bytes|), c.bytes);
  }

  /** `LegacyEncoder` frames the content by its declared length: when that
      is shorter than the bytes written, the client reads only that many
      and the rest is taken for the next response. */
  lemma {:induction false} LegacyEncoderFraming(c: Content)
    requires Excludes(Utf8.Encode(c.mimeText), Ascii.COLON)
    requires 0 <= c.declaredLength <= |c.bytes| && c.declaredLength <= Decimal.MAX_INT
    requires EncodeLegacy(ContentMessage(c)).Buffer?
    ensures var out := EncodeLegacy(ContentMessage(c)).bytes;
      var r := Run(Initial, out, 0);
      && r.Decoded?
      && r.at == |out| - (|c.bytes| - c.declaredLength)
      && Data(r.header.content) == c.bytes[..c.declaredLength]
  {
    var n := c.declaredLength;
    var mime := Utf8.Encode(c.mimeText);
    var lengthText := Decimal.Render(n);
    var out := EncodeLegacy(ContentMessage(c)).bytes;
    LegacyEncoderLayout(c);
    assert At(out, 0, ResponseWire(mime, lengthText, c.bytes[..n]));
    RoundTrip(out, 0, mime, lengthText, c.bytes[..n]);
  }

  /** The legacy encoder's output is a readable response carrying the
      first `declaredLength` bytes, followed by the rest. */
  lemma LegacyEncoderLayout(c: Content)
    requires Excludes(Utf8.Encode(c.mimeText), Ascii.COLON)
    requires 0 <= c.declaredLength <= |c.bytes| && c.declaredLength <= Decimal.MAX_INT
    requires EncodeLegacy(ContentMessage(c)).Buffer?
    ensures var n := c.declaredLength;
      var w := ResponseWire(Utf8.Encode(c.mimeText), Decimal.Render(n), c.bytes[..n]);
      && ReadableResponse(Utf8.Encode(c.mimeText), Decimal.Render(n), c.bytes[..n])
      && EncodeLegacy(ContentMessage(c)).bytes == w + c.bytes[n..]
  {
    var n := c.declaredLength;
    Decimal.ParseRender(n);
    assert c.bytes == c.bytes[..n] + c.bytes[n..];
  }

  // ---------------------------------------------------------------------
  // The header decoder behind the frame decoder.

  datatype ClientMessage = HeaderMessage(header: ClientHeader) | OtherClientMessage(tag: nat)

  /** What `LegacyClientHeaderDecoder.decode` does with a message: pass it
      on, hand the content text to Jackson as a list or as a map, or throw. */
  datatype ClientDecoded =
    | PassThrough(message: ClientMessage)
    | ParseList(text: Bytes)
    | ParseMap(text: Bytes)
    | Underflow
    | EmptyContent
    | UnknownJson(text: Bytes)

  /** How many bytes are copied out of the content's `ByteBuffer`: the
      source sizes the array by `limit()`, which for a view into a larger
      array is its offset plus its size; `remaining()` is its size. */
  datatype Sizing = ByLimit | ByRemaining

  /** The JSON text is classified by its first character, which is `[` or
      `{` exactly when its first UTF-8 byte is. */
  function Classify(text: Bytes): (r: ClientDecoded)
    ensures r.ParseList? || r.ParseMap? || r.EmptyContent? || r.UnknownJson?
    ensures r.ParseList? <==> |text| > 0 && text[0] == LEFT_BRACKET
    ensures r.ParseMap? <==> |text| > 0 && text[0] == LEFT_BRACE
    ensures r.EmptyContent? <==> text == []
    ensures r.ParseList? || r.ParseMap? || r.UnknownJson? ==> r.text == text
  {
    if text == [] then EmptyContent
    else if text[0] == LEFT_BRACKET then ParseList(text)
    else if text[0] == LEFT_BRACE then ParseMap(text)
    else UnknownJson(text)
  }

  /** `LegacyClientHeaderDecoder.decode`, with the mime text of JSON as
      `json` and the copy sized as `sizing` says. */
  function DecodeClientHeader(m: ClientMessage, json: Bytes, sizing: Sizing): (r: ClientDecoded)
    ensures m.OtherClientMessage? ==> r == PassThrough(m)
    ensures m.HeaderMessage? && m.header.mimeType != json ==> r == PassThrough(m)
    ensures r.Underflow? <==>
      m.HeaderMessage? && m.header.mimeType == json && sizing == ByLimit && m.header.content.offset > 0
    ensures m.HeaderMessage? && m.header.mimeType == json && !r.Underflow? ==>
      r == Classify(Data(m.header.content))
  {
    match m
    case OtherClientMessage(_) => PassThrough(m)
    case HeaderMessage(h) =>
      if h.mimeType != json then PassThrough(m)
      else
        var v := h.content;
        var wanted := match sizing case ByLimit => v.offset + v.size case ByRemaining => v.size;
        if wanted > v.size then Underflow
        else Classify(v.backing[v.offset..v.offset + wanted])
  }

  /** A response the client decoder reads out of the middle of its buffer
      (after the response's own header) is never handed to Jackson: the copy
      sized by `limit()` underflows. */
  lemma {:induction false} HeaderDecoderUnderflows(c: Content, json: Bytes)
    requires Utf8.Encode(c.mimeName) == json && Excludes(json, Ascii.COLON)
    requires |c.bytes| <= Decimal.MAX_INT
    ensures var out := EncodeContent(ContentMessage(c)).bytes;
      var r := Run(Initial, out, 0);
      r.Decoded? && DecodeClientHeader(HeaderMessage(r.header), json, ByLimit) == Underflow
  {
    ContentEncoderRoundTrip(c);
  }

  /** Copying the view's remaining bytes instead, a JSON response written
      by the content encoder reaches Jackson as exactly its content, as a
      list or a map by its first byte. */
  lemma {:induction false} HeaderDecoderReadsContent(c: Content, json: Bytes)
    requires Utf8.Encode(c.mimeName) == json && Excludes(json, Ascii.COLON)
    requires |c.bytes| <= Decimal.MAX_INT
    ensures var out := EncodeContent(ContentMessage(c)).bytes;
      var r := Run(Initial, out, 0);
      r.Decoded? && DecodeClientHeader(HeaderMessage(r.header), json, ByRemaining) == Classify(c.bytes)
  {
    ContentEncoderRoundTrip(c);
  }
}
