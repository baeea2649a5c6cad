/** The server's replaying request decoder: a checkpointed state machine
    over `<type>://<aliasedName>/<sessionId>/(<contentLength>)?<content>`.
    When the bytes a stage needs have not arrived yet the stage is replayed
    from its checkpoint once more bytes are appended to the buffer. */
module RequestDecoder {

  import opened Wrappers
  import opened Bytes
  import Ascii = Bytes
  import Decimal
  import opened Frames

  /** The checkpoints, in wire order. */
  datatype Part =
    | TYPE | COLON | FIRST_SLASH | SECOND_SLASH | NAME | THIRD_SLASH | SESSION_ID
    | FOURTH_SLASH | LEFT_PARENTHESIS | CONTENT_LENGTH | RIGHT_PARENTHESIS
    | QUESTION_MARK | CONTENT

  function Ordinal(p: Part): nat {
    match p
    case TYPE => 0
    case COLON => 1
    case FIRST_SLASH => 2
    case SECOND_SLASH => 3
    case NAME => 4
    case THIRD_SLASH => 5
    case SESSION_ID => 6
    case FOURTH_SLASH => 7
    case LEFT_PARENTHESIS => 8
    case CONTENT_LENGTH => 9
    case RIGHT_PARENTHESIS => 10
    case QUESTION_MARK => 11
    case CONTENT => 12
  }

  /** The stages that scan for a delimiter rather than check one byte. */
  predicate IsScan(p: Part) {
    p == TYPE || p == NAME || p == SESSION_ID || p == CONTENT_LENGTH || p == CONTENT
  }

  /** The decoder's state: its checkpoint and the elements read so far. */
  datatype Decoder = Decoder(
    part: Part,
    callType: Option<CallType>,
    name: Option<Bytes>,
    sessionId: Option<Bytes>,
    length: int)

  /** A fresh decoder, and the state `reset()` returns to after a frame. */
  const Initial: Decoder := Decoder(TYPE, None, None, None, 0)

  /** Exactly the elements before the checkpoint have been read. */
  predicate Consistent(d: Decoder) {
    && (d.callType.Some? <==> Ordinal(d.part) > 0)
    && (d.name.Some? <==> Ordinal(d.part) > 4)
    && (d.sessionId.Some? <==> Ordinal(d.part) > 6)
    && (Ordinal(d.part) <= 9 ==> d.length == 0)
  }

  datatype DecodeError =
    | UnknownType(text: Bytes)
    | Unexpected(expected: Byte, actual: Byte)
    | BadLength(text: Bytes)
    | NegativeLength(length: int)

  /** One stage: wait for more bytes, throw, move to the next checkpoint at
      reader index `at`, or return a header. */
  datatype Step =
    | Replay
    | Fail(error: DecodeError)
    | Advance(next: Decoder, at: nat)
    | Emit(header: Header, at: nat)

  /** A delimiter stage: the byte at the reader index must be `c`; it is
      skipped and `next` becomes the checkpoint. */
  function Expect(d: Decoder, buf: Bytes, pos: nat, c: Byte, next: Part): (r: Step)
    requires pos <= |buf|
    ensures r.Advance? <==> pos < |buf| && buf[pos] == c
    ensures r.Advance? ==> r == Advance(d.(part := next), pos + 1)
    ensures r.Replay? <==> pos == |buf|
    ensures r.Fail? ==> r.error == Unexpected(c, buf[pos])
  {
    if pos == |buf| then Replay
    else if buf[pos] != c then Fail(Unexpected(c, buf[pos]))
    else Advance(d.(part := next), pos + 1)
  }

  /** The stage the checkpoint `d.part` names, with the reader index at
      `pos`. A scanning stage leaves the reader index on the delimiter it
      found; the delimiter stage after it skips that byte. */
  function Stage(d: Decoder, buf: Bytes, pos: nat): (r: Step)
    requires pos <= |buf| && Consistent(d)
    ensures r.Advance? ==> pos <= r.at <= |buf| && Consistent(r.next)
    ensures r.Advance? ==> Ordinal(r.next.part) == Ordinal(d.part) + 1
    ensures r.Advance? && !IsScan(d.part) ==> r.at == pos + 1
    ensures r.Emit? ==>
      && d.part == CONTENT && 0 <= d.length && r.at == pos + d.length <= |buf|
      && Data(r.header.content) == buf[pos..r.at]
  {
    match d.part
    case TYPE =>
      (match IndexOf(buf, pos, Ascii.COLON)
       case None => Replay
       case Some(i) =>
         match ValueOf(ToUpper(buf[pos..i]))
         case None => Fail(UnknownType(buf[pos..i]))
         case Some(t) => Advance(d.(part := COLON, callType := Some(t)), i))
    case COLON => Expect(d, buf, pos, Ascii.COLON, FIRST_SLASH)
    case FIRST_SLASH => Expect(d, buf, pos, SLASH, SECOND_SLASH)
    case SECOND_SLASH => Expect(d, buf, pos, SLASH, NAME)
    case NAME =>
      (match IndexOf(buf, pos, SLASH)
       case None => Replay
       case Some(i) => Advance(d.(part := THIRD_SLASH, name := Some(buf[pos..i])), i))
    case THIRD_SLASH => Expect(d, buf, pos, SLASH, SESSION_ID)
    case SESSION_ID =>
      (match IndexOf(buf, pos, SLASH)
       case None => Replay
       case Some(i) => Advance(d.(part := FOURTH_SLASH, sessionId := Some(buf[pos..i])), i))
    case FOURTH_SLASH => Expect(d, buf, pos, SLASH, LEFT_PARENTHESIS)
    case LEFT_PARENTHESIS => Expect(d, buf, pos, LEFT_PAREN, CONTENT_LENGTH)
    case CONTENT_LENGTH =>
      (match IndexOf(buf, pos, RIGHT_PAREN)
       case None => Replay
       case Some(i) =>
         match Decimal.ParseInt(buf[pos..i])
         case None => Fail(BadLength(buf[pos..i]))
         case Some(n) => Advance(d.(part := RIGHT_PARENTHESIS, length := n), i))
    case RIGHT_PARENTHESIS => Expect(d, buf, pos, RIGHT_PAREN, QUESTION_MARK)
    case QUESTION_MARK => Expect(d, buf, pos, QUESTION, CONTENT)
    case CONTENT =>
      if d.length < 0 then Fail(NegativeLength(d.length))
      else if pos + d.length > |buf| then Replay
      else
        var h := Header(d.callType.value, d.name.value, d.sessionId.value, d.length,
                        View(buf, pos, d.length));
        Emit(h, pos + d.length)
  }

  /** One `decode` call: the stages fall through from checkpoint `d.part`
      until one needs more bytes (the call is abandoned and will replay from
      the last checkpoint), throws, or returns a header. */
  datatype Outcome =
    | NeedMore(checkpoint: Decoder, at: nat)
    | Failed(error: DecodeError)
    | Decoded(header: Header, at: nat)

  function Run(d: Decoder, buf: Bytes, pos: nat): (r: Outcome)
    requires pos <= |buf| && Consistent(d)
    ensures r.NeedMore? ==> pos <= r.at <= |buf| && Consistent(r.checkpoint)
    ensures r.NeedMore? ==> Ordinal(d.part) <= Ordinal(r.checkpoint.part)
    ensures r.Decoded? ==> pos <= r.at <= |buf|
    ensures r.Decoded? && Ordinal(d.part) < 12 ==> pos < r.at
    decreases 12 - Ordinal(d.part)
  {
    match Stage(d, buf, pos)
    case Replay => NeedMore(d, pos)
    case Fail(e) => Failed(e)
    case Advance(next, at) => Run(next, buf, at)
    case Emit(h, at) => Decoded(h, at)
  }

  /** A returned header's content is the declared number of bytes just
      before the new reader index. */
  lemma {:induction false} RunContent(d: Decoder, buf: Bytes, pos: nat)
    requires pos <= |buf| && Consistent(d)
    requires Run(d, buf, pos).Decoded?
    ensures var r := Run(d, buf, pos);
      && 0 <= r.header.contentLength <= r.at
      && Data(r.header.content) == buf[r.at - r.header.contentLength..r.at]
    decreases 12 - Ordinal(d.part)
  {
    match Stage(d, buf, pos)
    case Advance(next, at) => RunContent(next, buf, at);
    case Emit(h, at) =>
    case Replay =>
    case Fail(e) =>
  }

  /** A decoded header's content is a view into the decoder's buffer of
      exactly the declared length. */
  lemma {:induction false} DecodedView(d: Decoder, buf: Bytes, pos: nat)
    requires pos <= |buf| && Consistent(d)
    requires Run(d, buf, pos).Decoded?
    ensures var h := Run(d, buf, pos).header;
      h.content.backing == buf && h.content.size == h.contentLength
    decreases 12 - Ordinal(d.part)
  {
    match Stage(d, buf, pos)
    case Advance(next, at) => DecodedView(next, buf, at);
    case Emit(h, at) =>
    case Replay =>
    case Fail(e) =>
  }

  /** What the decoder has left after a buffer has been fed to it. */
  datatype FeedState =
    | Waiting(decoder: Decoder, at: nat)
    | Broken(error: DecodeError)

  datatype FeedResult = FeedResult(headers: seq<Header>, state: FeedState)

  /** The replaying decoder's `callDecode` loop: decode while bytes remain
      after the reader index, restart from `Initial` after every header,
      and stop at the first replay or exception. */
  function Feed(d: Decoder, buf: Bytes, pos: nat): (r: FeedResult)
    requires pos <= |buf| && Consistent(d)
    ensures r.state.Waiting? ==> pos <= r.state.at <= |buf| && Consistent(r.state.decoder)
    decreases |buf| - pos, if d.part == TYPE then 0 else 1
  {
    if pos == |buf| then FeedResult([], Waiting(d, pos))
    else
      match Run(d, buf, pos)
      case NeedMore(c, at) => FeedResult([], Waiting(c, at))
      case Failed(e) => FeedResult([], Broken(e))
      case Decoded(h, at) =>
        var rest := Feed(Initial, buf, at);
        FeedResult([h] + rest.headers, rest.state)
  }

  // ---------------------------------------------------------------------
  // Replay: stages only look at bytes up to what they consume.

  /** A stage that did not replay gives the same result once more bytes
      are appended, up to the buffer the emitted content is a view of. */
  lemma {:induction false} StageExtend(d: Decoder, buf: Bytes, pos: nat, e: Bytes)
    requires pos <= |buf| && Consistent(d)
    requires !Stage(d, buf, pos).Replay?
    ensures var r, r' := Stage(d, buf, pos), Stage(d, buf + e, pos);
      match r
      case Replay => true
      case Fail(err) => r' == r
      case Advance(next, at) => r' == r
      case Emit(h, at) => r'.Emit? && r'.at == at && Logical(r'.header) == Logical(h)
  {
    var b := buf + e;
    assert b[..|buf|] == buf;
    match d.part
    case TYPE =>
      IndexOfExtend(buf, pos, Ascii.COLON, e);
      var i := IndexOf(buf, pos, Ascii.COLON).value;
      assert b[pos..i] == buf[pos..i];
    case NAME =>
      IndexOfExtend(buf, pos, SLASH, e);
      var i := IndexOf(buf, pos, SLASH).value;
      assert b[pos..i] == buf[pos..i];
    case SESSION_ID =>
      IndexOfExtend(buf, pos, SLASH, e);
      var i := IndexOf(buf, pos, SLASH).value;
      assert b[pos..i] == buf[pos..i];
    case CONTENT_LENGTH =>
      IndexOfExtend(buf, pos, RIGHT_PAREN, e);
      var i := IndexOf(buf, pos, RIGHT_PAREN).value;
      assert b[pos..i] == buf[pos..i];
    case CONTENT =>
      if 0 <= d.length && pos + d.length <= |buf| {
        assert b[pos..pos + d.length] == buf[pos..pos + d.length];
      }
    case _ =>
      assert b[pos] == buf[pos];
  }

  /** A completed `decode` call gives the same frame once more bytes are
      appended. */
  lemma {:induction false} RunExtend(d: Decoder, buf: Bytes, pos: nat, e: Bytes)
    requires pos <= |buf| && Consistent(d)
    requires !Run(d, buf, pos).NeedMore?
    ensures Run(d, buf, pos).Failed? ==> Run(d, buf + e, pos) == Run(d, buf, pos)
    ensures Run(d, buf, pos).Decoded? ==>
      && Run(d, buf + e, pos).Decoded?
      && Run(d, buf + e, pos).at == Run(d, buf, pos).at
      && Logical(Run(d, buf + e, pos).header) == Logical(Run(d, buf, pos).header)
    decreases 12 - Ordinal(d.part)
  {
    StageExtend(d, buf, pos, e);
    match Stage(d, buf, pos)
    case Fail(_) =>
    case Emit(_, _) =>
    case Advance(next, at) =>
      RunExtend(next, buf, at, e);
  }

  /** Replaying from the checkpoint a `decode` call stopped at is the same
      as starting over from where that call started: the checkpoint loses
      nothing. */
  lemma {:induction false} Resume(d: Decoder, buf: Bytes, pos: nat, e: Bytes)
    requires pos <= |buf| && Consistent(d)
    requires Run(d, buf, pos).NeedMore?
    ensures var c := Run(d, buf, pos);
      Run(d, buf + e, pos) == Run(c.checkpoint, buf + e, c.at)
    decreases 12 - Ordinal(d.part)
  {
    var s := Stage(d, buf, pos);
    if s.Advance? {
      StageExtend(d, buf, pos, e);
      Resume(s.next, buf, s.at, e);
    }
  }

  /** Feeding a buffer in two parts gives the frames of feeding it in one,
      when the decoder kept waiting after the first part. */
  lemma {:induction false} FeedSplit(d: Decoder, buf: Bytes, pos: nat, e: Bytes)
    requires pos <= |buf| && Consistent(d)
    requires Feed(d, buf, pos).state.Waiting?
    ensures var first := Feed(d, buf, pos);
      var second := Feed(first.state.decoder, buf + e, first.state.at);
      && Logicals(first.headers + second.headers) == Logicals(Feed(d, buf + e, pos).headers)
      && second.state == Feed(d, buf + e, pos).state
    decreases |buf| - pos, if d.part == TYPE then 0 else 1
  {
    var b := buf + e;
    if pos == |buf| {
      assert Feed(d, buf, pos).headers == [];
    } else {
      match Run(d, buf, pos)
      case NeedMore(c, at) =>
        Resume(d, buf, pos, e);
        if e == [] {
          assert b == buf;
        }
        ResumeFeed(d, b, pos, c, at);
        assert Feed(d, buf, pos).headers == [];
      case Decoded(h, at) =>
        FeedSplit(Initial, buf, at, e);
        FeedSplitStep(d, buf, pos, e);
    }
  }

  /** Feeding `buf` from `pos` and then the extended buffer from where
      that stopped agrees with feeding the extended buffer at once. */
  predicate SplitAgrees(d: Decoder, buf: Bytes, pos: nat, e: Bytes)
    requires pos <= |buf| && Consistent(d)
  {
    var first := Feed(d, buf, pos);
    var whole := Feed(d, buf + e, pos);
    first.state.Waiting? ==>
      var second := Feed(first.state.decoder, buf + e, first.state.at);
      && Logicals(first.headers + second.headers) == Logicals(whole.headers)
      && second.state == whole.state
  }

  /** The step of `FeedSplit` past one decoded frame. */
  lemma {:induction false} FeedSplitStep(d: Decoder, buf: Bytes, pos: nat, e: Bytes)
    requires pos < |buf| && Consistent(d)
    requires Run(d, buf, pos).Decoded?
    requires SplitAgrees(Initial, buf, Run(d, buf, pos).at, e)
    ensures SplitAgrees(d, buf, pos, e)
  {
    var b := buf + e;
    var h := Run(d, buf, pos).header;
    var at := Run(d, buf, pos).at;
    var rest := Feed(Initial, buf, at);
    var first := Feed(d, buf, pos);
    assert first == FeedResult([h] + rest.headers, rest.state);
    if rest.state.Waiting? {
      RunExtend(d, buf, pos, e);
      var h' := Run(d, b, pos).header;
      var second := Feed(rest.state.decoder, b, rest.state.at);
      var whole := Feed(Initial, b, at);
      assert Feed(d, b, pos) == FeedResult([h'] + whole.headers, whole.state);
      LogicalsCons(h, h', rest.headers, second.headers, whole.headers);
    }
  }

  /** Feeding from where a `decode` call started and from the checkpoint
      it reached agree, once that call resumes successfully or fails. */
  lemma {:induction false} ResumeFeed(d: Decoder, b: Bytes, pos: nat, c: Decoder, at: nat)
    requires pos <= at <= |b| && Consistent(d) && Consistent(c)
    requires pos < |b|
    requires Run(d, b, pos) == Run(c, b, at)
    requires at == |b| ==> pos == at || Run(d, b, pos) == NeedMore(c, at)
    ensures Feed(d, b, pos) == Feed(c, b, at)
  {
  }

  // ---------------------------------------------------------------------
  // The wire format the decoder reads.

  /** `<type>://<aliasedName>/<sessionId>/(<contentLength>)?<content>`. */
  function Wire(typeText: Bytes, name: Bytes, session: Bytes, lengthText: Bytes, content: Bytes): Bytes {
    typeText + [Ascii.COLON, SLASH, SLASH] + name + [SLASH] + session + [SLASH, LEFT_PAREN]
      + lengthText + [RIGHT_PAREN, QUESTION] + content
  }

  /** The fields of a request can be read back unambiguously: a type
      naming a call type in any letter case and without `:`, a name and a
      session id without `/`, and a length field `Integer.parseInt` reads as
      the content's length. */
  predicate Readable(typeText: Bytes, name: Bytes, session: Bytes, lengthText: Bytes, content: Bytes) {
    && ValueOf(ToUpper(typeText)).Some?
    && Excludes(typeText, Ascii.COLON)
    && Excludes(name, SLASH)
    && Excludes(session, SLASH)
    && Decimal.ParseInt(lengthText) == Some(|content|)
  }

  /** Where each field of a request sits inside `Wire`, one segment at a
      time. */
  lemma {:induction false} WireType(typeText: Bytes, name: Bytes, session: Bytes, lengthText: Bytes, content: Bytes)
    ensures var w := Wire(typeText, name, session, lengthText, content);
      var a := |typeText|;
      && a + 3 <= |w|
      && w[..a] == typeText
      && w[a] == Ascii.COLON && w[a + 1] == SLASH && w[a + 2] == SLASH
  {
  }

  lemma {:induction false} WireIds(typeText: Bytes, name: Bytes, session: Bytes, lengthText: Bytes, content: Bytes)
    ensures var w := Wire(typeText, name, session, lengthText, content);
      var b := |typeText| + 3 + |name|;
      var c := b + 1 + |session|;
      && c < |w|
      && w[b - |name|..b] == name && w[b] == SLASH
      && w[b + 1..c] == session && w[c] == SLASH
  {
    var w := Wire(typeText, name, session, lengthText, content);
    var b := |typeText| + 3 + |name|;
    var c := b + 1 + |session|;
    var front := typeText + [Ascii.COLON, SLASH, SLASH] + name + [SLASH] + session;
    assert w == front + ([SLASH, LEFT_PAREN] + lengthText + [RIGHT_PAREN, QUESTION] + content);
    assert w[..c] == front;
    assert front[b - |name|..b] == name;
    assert front[b + 1..c] == session;
  }

  lemma {:induction false} WireLength(typeText: Bytes, name: Bytes, session: Bytes, lengthText: Bytes, content: Bytes)
    ensures var w := Wire(typeText, name, session, lengthText, content);
      var c := |typeText| + 3 + |name| + 1 + |session|;
      var e := c + 2 + |lengthText|;
      && e + 2 <= |w|
      && w[c] == SLASH && w[c + 1] == LEFT_PAREN
      && w[c + 2..e] == lengthText && w[e] == RIGHT_PAREN && w[e + 1] == QUESTION
  {
    var w := Wire(typeText, name, session, lengthText, content);
    var c := |typeText| + 3 + |name| + 1 + |session|;
    var e := c + 2 + |lengthText|;
    var front := typeText + [Ascii.COLON, SLASH, SLASH] + name + [SLASH] + session;
    var back := [SLASH, LEFT_PAREN] + lengthText + [RIGHT_PAREN, QUESTION];
    assert w == front + back + content;
    assert w[c..e + 2] == back;
    assert back[2..2 + |lengthText|] == lengthText;
  }

  lemma {:induction false} WireContent(typeText: Bytes, name: Bytes, session: Bytes, lengthText: Bytes, content: Bytes)
    ensures var w := Wire(typeText, name, session, lengthText, content);
      var k := |typeText| + 3 + |name| + 1 + |session| + 2 + |lengthText| + 2;
      && |w| == k + |content|
      && w[k..] == content
  {
  }

  /** Decoding a well-formed request yields its fields and consumes exactly
      its bytes, whatever follows it in the buffer. */
  lemma {:induction false} RoundTrip(buf: Bytes, pos: nat, typeText: Bytes, name: Bytes, session: Bytes,
                  lengthText: Bytes, content: Bytes)
    requires Readable(typeText, name, session, lengthText, content)
    requires At(buf, pos, Wire(typeText, name, session, lengthText, content))
    ensures var r := Run(Initial, buf, pos);
      && r.Decoded?
      && r.at == pos + |Wire(typeText, name, session, lengthText, content)|
      && Logical(r.header)
         == Frame(ValueOf(ToUpper(typeText)).value, name, session, |content|, content)
  {
    TypeOnWire(buf, pos, typeText, name, session, lengthText, content, ValueOf(ToUpper(typeText)).value);
    IdsOnWire(buf, pos, typeText, name, session, lengthText, content, ValueOf(ToUpper(typeText)).value);
    LengthOnWire(buf, pos, typeText, name, session, lengthText, content, ValueOf(ToUpper(typeText)).value);
    ContentOnWire(buf, pos, typeText, name, session, lengthText, content, ValueOf(ToUpper(typeText)).value);
  }

  lemma {:induction false} TypeOnWire(buf: Bytes, pos: nat, typeText: Bytes, name: Bytes, session: Bytes,
                   lengthText: Bytes, content: Bytes, t: CallType)
    requires Excludes(typeText, Ascii.COLON) && ValueOf(ToUpper(typeText)) == Some(t)
    requires At(buf, pos, Wire(typeText, name, session, lengthText, content))
    ensures Run(Initial, buf, pos) == Run(Decoder(NAME, Some(t), None, None, 0), buf, pos + |typeText| + 3)
  {
    TypeFacts(buf, pos, typeText, name, session, lengthText, content);
    ReadTypeSegment(buf, pos, pos + |typeText|, typeText, t);
  }

  lemma {:induction false} TypeFacts(buf: Bytes, pos: nat, typeText: Bytes, name: Bytes, session: Bytes,
                  lengthText: Bytes, content: Bytes)
    requires At(buf, pos, Wire(typeText, name, session, lengthText, content))
    ensures var a := pos + |typeText|;
      && a + 3 <= |buf| && buf[pos..a] == typeText
      && buf[a] == Ascii.COLON && buf[a + 1] == SLASH && buf[a + 2] == SLASH
  {
    var w := Wire(typeText, name, session, lengthText, content);
    var a := |typeText|;
    WireType(typeText, name, session, lengthText, content);
    AtSlice(buf, pos, w, 0, a);
    AtByte(buf, pos, w, a);
    AtByte(buf, pos, w, a + 1);
    AtByte(buf, pos, w, a + 2);
  }

  lemma {:induction false} IdsOnWire(buf: Bytes, pos: nat, typeText: Bytes, name: Bytes, session: Bytes,
                  lengthText: Bytes, content: Bytes, t: CallType)
    requires Excludes(name, SLASH) && Excludes(session, SLASH)
    requires At(buf, pos, Wire(typeText, name, session, lengthText, content))
    ensures var p := pos + |typeText| + 3;
      Run(Decoder(NAME, Some(t), None, None, 0), buf, p)
      == Run(Decoder(FOURTH_SLASH, Some(t), Some(name), Some(session), 0), buf,
             p + |name| + 1 + |session|)
  {
    var p := pos + |typeText| + 3;
    IdsFacts(buf, pos, typeText, name, session, lengthText, content);
    ReadIdSegment(buf, p, p + |name|, p + |name| + 1 + |session|, t, name, session);
  }

  lemma {:induction false} IdsFacts(buf: Bytes, pos: nat, typeText: Bytes, name: Bytes, session: Bytes,
                 lengthText: Bytes, content: Bytes)
    requires At(buf, pos, Wire(typeText, name, session, lengthText, content))
    ensures var p := pos + |typeText| + 3;
      var b := p + |name|;
      var c := b + 1 + |session|;
      && c < |buf|
      && buf[p..b] == name && buf[b] == SLASH
      && buf[b + 1..c] == session && buf[c] == SLASH
  {
    var w := Wire(typeText, name, session, lengthText, content);
    var a := |typeText|;
    var b := a + 3 + |name|;
    var c := b + 1 + |session|;
    WireIds(typeText, name, session, lengthText, content);
    AtSlice(buf, pos, w, a + 3, b);
    AtByte(buf, pos, w, b);
    AtSlice(buf, pos, w, b + 1, c);
    AtByte(buf, pos, w, c);
  }

  lemma {:induction false} LengthOnWire(buf: Bytes, pos: nat, typeText: Bytes, name: Bytes, session: Bytes,
                     lengthText: Bytes, content: Bytes, t: CallType)
    requires Decimal.ParseInt(lengthText) == Some(|content|)
    requires At(buf, pos, Wire(typeText, name, session, lengthText, content))
    ensures var c := pos + |typeText| + 3 + |name| + 1 + |session|;
      Run(Decoder(FOURTH_SLASH, Some(t), Some(name), Some(session), 0), buf, c)
      == Run(Decoder(CONTENT, Some(t), Some(name), Some(session), |content|), buf,
             c + 2 + |lengthText| + 2)
  {
    var c := pos + |typeText| + 3 + |name| + 1 + |session|;
    LengthFacts(buf, pos, typeText, name, session, lengthText, content);
    ReadLengthSegment(buf, c, c + 2 + |lengthText|, t, name, session, lengthText, |content|);
  }

  lemma {:induction false} LengthFacts(buf: Bytes, pos: nat, typeText: Bytes, name: Bytes, session: Bytes,
                    lengthText: Bytes, content: Bytes)
    requires At(buf, pos, Wire(typeText, name, session, lengthText, content))
    ensures var c := pos + |typeText| + 3 + |name| + 1 + |session|;
      var e := c + 2 + |lengthText|;
      && e + 2 <= |buf|
      && buf[c] == SLASH && buf[c + 1] == LEFT_PAREN
      && buf[c + 2..e] == lengthText && buf[e] == RIGHT_PAREN && buf[e + 1] == QUESTION
  {
    var w := Wire(typeText, name, session, lengthText, content);
    var c := |typeText| + 3 + |name| + 1 + |session|;
    var e := c + 2 + |lengthText|;
    WireLength(typeText, name, session, lengthText, content);
    AtByte(buf, pos, w, c);
    AtByte(buf, pos, w, c + 1);
    AtSlice(buf, pos, w, c + 2, e);
    AtByte(buf, pos, w, e);
    AtByte(buf, pos, w, e + 1);
  }

  lemma {:induction false} ContentOnWire(buf: Bytes, pos: nat, typeText: Bytes, name: Bytes, session: Bytes,
                      lengthText: Bytes, content: Bytes, t: CallType)
    requires At(buf, pos, Wire(typeText, name, session, lengthText, content))
    ensures var k := pos + |typeText| + 3 + |name| + 1 + |session| + 2 + |lengthText| + 2;
      var h := Header(t, name, session, |content|, View(buf, k, |content|));
      && k + |content| <= |buf|
      && Run(Decoder(CONTENT, Some(t), Some(name), Some(session), |content|), buf, k)
         == Decoded(h, k + |content|)
      && Data(h.content) == content
  {
    ContentFacts(buf, pos, typeText, name, session, lengthText, content);
    var k := pos + |typeText| + 3 + |name| + 1 + |session| + 2 + |lengthText| + 2;
    ReadContentSegment(buf, k, t, name, session, content);
  }

  lemma {:induction false} ReadContentSegment(buf: Bytes, k: nat, t: CallType, name: Bytes, session: Bytes, content: Bytes)
    requires k + |content| <= |buf| && buf[k..k + |content|] == content
    ensures var h := Header(t, name, session, |content|, View(buf, k, |content|));
      && Run(Decoder(CONTENT, Some(t), Some(name), Some(session), |content|), buf, k)
         == Decoded(h, k + |content|)
      && Data(h.content) == content
  {
    var d := Decoder(CONTENT, Some(t), Some(name), Some(session), |content|);
    var h := Header(t, name, session, |content|, View(buf, k, |content|));
    assert Stage(d, buf, k) == Emit(h, k + |content|);
  }

  lemma {:induction false} ContentFacts(buf: Bytes, pos: nat, typeText: Bytes, name: Bytes, session: Bytes,
                     lengthText: Bytes, content: Bytes)
    requires At(buf, pos, Wire(typeText, name, session, lengthText, content))
    ensures var k := pos + |typeText| + 3 + |name| + 1 + |session| + 2 + |lengthText| + 2;
      && k + |content| <= |buf|
      && buf[k..k + |content|] == content
  {
    var w := Wire(typeText, name, session, lengthText, content);
    var k := |typeText| + 3 + |name| + 1 + |session| + 2 + |lengthText| + 2;
    WireContent(typeText, name, session, lengthText, content);
    AtSlice(buf, pos, w, k, |w|);
  }

  /** `<type>://` moves a fresh decoder to the NAME checkpoint. */
  lemma {:induction false} ReadTypeSegment(buf: Bytes, pos: nat, a: nat, typeText: Bytes, t: CallType)
    requires a == pos + |typeText| && a + 3 <= |buf|
    requires buf[pos..a] == typeText
    requires buf[a] == Ascii.COLON && buf[a + 1] == SLASH && buf[a + 2] == SLASH
    requires Excludes(typeText, Ascii.COLON) && ValueOf(ToUpper(typeText)) == Some(t)
    ensures Run(Initial, buf, pos) == Run(Decoder(NAME, Some(t), None, None, 0), buf, a + 3)
  {
    IndexOfFinds(buf, pos, typeText, Ascii.COLON);
    assert IndexOf(buf, pos, Ascii.COLON) == Some(a);
    assert ValueOf(ToUpper(buf[pos..a])) == Some(t);
    var d1 := Decoder(COLON, Some(t), None, None, 0);
    var d2 := d1.(part := FIRST_SLASH);
    var d3 := d1.(part := SECOND_SLASH);
    var d4 := d1.(part := NAME);
    assert Stage(Initial, buf, pos) == Advance(d1, a);
    assert Stage(d1, buf, a) == Advance(d2, a + 1);
    assert Stage(d2, buf, a + 1) == Advance(d3, a + 2);
    assert Stage(d3, buf, a + 2) == Advance(d4, a + 3);
    assert Run(d3, buf, a + 2) == Run(d4, buf, a + 3);
    assert Run(d2, buf, a + 1) == Run(d3, buf, a + 2);
    assert Run(d1, buf, a) == Run(d2, buf, a + 1);
  }

  /** `<aliasedName>/<sessionId>` moves the decoder from NAME at `p` to
      the FOURTH_SLASH checkpoint at `c`, holding both. */
  lemma {:induction false} ReadIdSegment(buf: Bytes, p: nat, b: nat, c: nat, t: CallType, name: Bytes, session: Bytes)
    requires b == p + |name| && c == b + 1 + |session| && c < |buf|
    requires buf[p..b] == name && buf[b] == SLASH
    requires buf[b + 1..c] == session && buf[c] == SLASH
    requires Excludes(name, SLASH) && Excludes(session, SLASH)
    ensures Run(Decoder(NAME, Some(t), None, None, 0), buf, p)
         == Run(Decoder(FOURTH_SLASH, Some(t), Some(name), Some(session), 0), buf, c)
  {
    IndexOfFinds(buf, p, name, SLASH);
    IndexOfFinds(buf, b + 1, session, SLASH);
    var d5 := Decoder(THIRD_SLASH, Some(t), Some(name), None, 0);
    var d6 := d5.(part := SESSION_ID);
    var d7 := Decoder(FOURTH_SLASH, Some(t), Some(name), Some(session), 0);
    assert Stage(Decoder(NAME, Some(t), None, None, 0), buf, p) == Advance(d5, b);
    assert Stage(d5, buf, b) == Advance(d6, b + 1);
    assert Stage(d6, buf, b + 1) == Advance(d7, c);
  }

  /** `/(<contentLength>)?` moves the decoder from FOURTH_SLASH at `c` to
      the CONTENT checkpoint at `e + 2`, holding the parsed length. */
  lemma {:induction false} ReadLengthSegment(buf: Bytes, c: nat, e: nat, t: CallType, name: Bytes, session: Bytes,
                          lengthText: Bytes, n: int)
    requires e == c + 2 + |lengthText| && e + 2 <= |buf|
    requires buf[c] == SLASH && buf[c + 1] == LEFT_PAREN
    requires buf[c + 2..e] == lengthText
    requires buf[e] == RIGHT_PAREN && buf[e + 1] == QUESTION
    requires Decimal.ParseInt(lengthText) == Some(n)
    ensures Run(Decoder(FOURTH_SLASH, Some(t), Some(name), Some(session), 0), buf, c)
         == Run(Decoder(CONTENT, Some(t), Some(name), Some(session), n), buf, e + 2)
  {
    var d7 := Decoder(FOURTH_SLASH, Some(t), Some(name), Some(session), 0);
    ParseLength(buf, c, e, d7, lengthText, n);
    CloseDelimiters(buf, e, d7.(part := RIGHT_PARENTHESIS, length := n));
  }

  /** `/(<contentLength>` moves the decoder from FOURTH_SLASH to
      RIGHT_PARENTHESIS, holding the parsed length. */
  lemma {:induction false} ParseLength(buf: Bytes, c: nat, e: nat, d7: Decoder, lengthText: Bytes, n: int)
    requires e == c + 2 + |lengthText| && e < |buf|
    requires d7.part == FOURTH_SLASH && Consistent(d7)
    requires buf[c] == SLASH && buf[c + 1] == LEFT_PAREN
    requires buf[c + 2..e] == lengthText && buf[e] == RIGHT_PAREN
    requires Decimal.ParseInt(lengthText) == Some(n)
    ensures Consistent(d7.(part := RIGHT_PARENTHESIS, length := n))
    ensures Run(d7, buf, c) == Run(d7.(part := RIGHT_PARENTHESIS, length := n), buf, e)
  {
    var d8 := d7.(part := LEFT_PARENTHESIS);
    var d9 := d7.(part := CONTENT_LENGTH);
    var d10 := d7.(part := RIGHT_PARENTHESIS, length := n);
    LengthStage(buf, c + 2, e, d9, lengthText, n);
    assert Stage(d7, buf, c) == Advance(d8, c + 1);
    assert Stage(d8, buf, c + 1) == Advance(d9, c + 2);
    RunThrough(d7, c, d8, c + 1, d9, c + 2, d10, e, buf);
  }

  /** Three stages that advance make one call pass three checkpoints. */
  lemma {:induction false} RunThrough(d0: Decoder, p0: nat, d1: Decoder, p1: nat, d2: Decoder, p2: nat,
                                      d3: Decoder, p3: nat, buf: Bytes)
    requires p0 <= |buf| && Consistent(d0)
    requires Stage(d0, buf, p0) == Advance(d1, p1)
    requires Stage(d1, buf, p1) == Advance(d2, p2)
    requires Stage(d2, buf, p2) == Advance(d3, p3)
    ensures p3 <= |buf| && Consistent(d3)
    ensures Run(d0, buf, p0) == Run(d3, buf, p3)
  {
    assert Run(d1, buf, p1) == Run(d2, buf, p2);
  }

  /** The CONTENT_LENGTH stage reads the digits up to the `)`. */
  lemma {:induction false} LengthStage(buf: Bytes, s: nat, e: nat, d9: Decoder, lengthText: Bytes, n: int)
    requires e == s + |lengthText| && e < |buf|
    requires d9.part == CONTENT_LENGTH && Consistent(d9)
    requires buf[s..e] == lengthText && buf[e] == RIGHT_PAREN
    requires Decimal.ParseInt(lengthText) == Some(n)
    ensures Stage(d9, buf, s) == Advance(d9.(part := RIGHT_PARENTHESIS, length := n), e)
  {
    Decimal.ParseIntBytes(lengthText, RIGHT_PAREN);
    IndexOfFinds(buf, s, lengthText, RIGHT_PAREN);
  }

  /** `)?` moves the decoder from RIGHT_PARENTHESIS to CONTENT. */
  lemma {:induction false} CloseDelimiters(buf: Bytes, e: nat, d10: Decoder)
    requires e + 2 <= |buf| && d10.part == RIGHT_PARENTHESIS && Consistent(d10)
    requires buf[e] == RIGHT_PAREN && buf[e + 1] == QUESTION
    ensures Consistent(d10.(part := CONTENT))
    ensures Run(d10, buf, e) == Run(d10.(part := CONTENT), buf, e + 2)
  {
    var d11 := d10.(part := QUESTION_MARK);
    assert Stage(d10, buf, e) == Advance(d11, e + 1);
    assert Stage(d11, buf, e + 1) == Advance(d10.(part := CONTENT), e + 2);
    assert Run(d11, buf, e + 1) == Run(d10.(part := CONTENT), buf, e + 2);
  }

  // ---------------------------------------------------------------------
  // Consecutive requests.

  /** The fields of one request as a client writes them. */
  datatype Request = Request(typeText: Bytes, name: Bytes, session: Bytes, lengthText: Bytes, content: Bytes)

  function RequestWire(q: Request): Bytes {
    Wire(q.typeText, q.name, q.session, q.lengthText, q.content)
  }

  predicate RequestReadable(q: Request) {
    Readable(q.typeText, q.name, q.session, q.lengthText, q.content)
  }

  /** What the decoder should make of a request. */
  function RequestFrame(q: Request): Frame
    requires RequestReadable(q)
  {
    Frame(ValueOf(ToUpper(q.typeText)).value, q.name, q.session, |q.content|, q.content)
  }

  function Wires(qs: seq<Request>): Bytes {
    if qs == [] then [] else RequestWire(qs[0]) + Wires(qs[1..])
  }

  function RequestFrames(qs: seq<Request>): seq<Frame>
    requires forall i :: 0 <= i < |qs| ==> RequestReadable(qs[i])
  {
    if qs == [] then [] else [RequestFrame(qs[0])] + RequestFrames(qs[1..])
  }

  /** Requests sent back to back decode independently: feeding their
      concatenation yields their frames in order, and the decoder ends
      reset to `TYPE` exactly at the end of the last one. */
  lemma {:induction false} FeedRequests(buf: Bytes, pos: nat, qs: seq<Request>)
    requires forall i :: 0 <= i < |qs| ==> RequestReadable(qs[i])
    requires pos + |Wires(qs)| == |buf| && buf[pos..] == Wires(qs)
    ensures Logicals(Feed(Initial, buf, pos).headers) == RequestFrames(qs)
    ensures Feed(Initial, buf, pos).state == Waiting(Initial, |buf|)
    decreases |qs|
  {
    if qs != [] {
      var at := pos + |RequestWire(qs[0])|;
      FirstRequest(buf, pos, qs);
      FeedRequests(buf, at, qs[1..]);
      assert RequestFrames(qs) == [RequestFrame(qs[0])] + RequestFrames(qs[1..]);
      FeedFrame(buf, pos, RequestFrame(qs[0]), RequestFrames(qs[1..]));
    }
  }

  /** The first of several requests decodes to its frame, and the rest
      follow it. */
  lemma {:induction false} FirstRequest(buf: Bytes, pos: nat, qs: seq<Request>)
    requires qs != []
    requires forall i :: 0 <= i < |qs| ==> RequestReadable(qs[i])
    requires pos + |Wires(qs)| == |buf| && buf[pos..] == Wires(qs)
    ensures var at := pos + |RequestWire(qs[0])|;
      && pos < at
      && Run(Initial, buf, pos).Decoded?
      && Run(Initial, buf, pos).at == at
      && Logical(Run(Initial, buf, pos).header) == RequestFrame(qs[0])
      && at + |Wires(qs[1..])| == |buf| && buf[at..] == Wires(qs[1..])
      && forall i :: 0 <= i < |qs[1..]| ==> RequestReadable(qs[1..][i])
  {
    var q := qs[0];
    WiresCons(buf, pos, qs);
    assert RequestReadable(q);
    RoundTrip(buf, pos, q.typeText, q.name, q.session, q.lengthText, q.content);
    forall i | 0 <= i < |qs[1..]| ensures RequestReadable(qs[1..][i]) {
      assert qs[1..][i] == qs[i + 1];
    }
  }

  /** `Feed` from a decodable position: that frame, then what follows. */
  lemma {:induction false} FeedFrame(buf: Bytes, pos: nat, f: Frame, fs: seq<Frame>)
    requires pos < |buf|
    requires Run(Initial, buf, pos).Decoded?
    requires Logical(Run(Initial, buf, pos).header) == f
    requires Logicals(Feed(Initial, buf, Run(Initial, buf, pos).at).headers) == fs
    ensures Logicals(Feed(Initial, buf, pos).headers) == [f] + fs
    ensures Feed(Initial, buf, pos).state == Feed(Initial, buf, Run(Initial, buf, pos).at).state
  {
    var r := Run(Initial, buf, pos);
    FeedDecoded(buf, pos);
    LogicalsAppend([r.header], Feed(Initial, buf, r.at).headers);
  }

  lemma {:induction false} WiresCons(buf: Bytes, pos: nat, qs: seq<Request>)
    requires qs != []
    requires pos + |Wires(qs)| == |buf| && buf[pos..] == Wires(qs)
    ensures var at := pos + |RequestWire(qs[0])|;
      && At(buf, pos, RequestWire(qs[0]))
      && at + |Wires(qs[1..])| == |buf| && buf[at..] == Wires(qs[1..])
  {
    var w := RequestWire(qs[0]);
    var at := pos + |w|;
    assert Wires(qs) == w + Wires(qs[1..]);
    forall i | 0 <= i < |w|
      ensures buf[pos + i] == w[i]
    {
      assert buf[pos..][i] == Wires(qs)[i];
    }
    assert buf[at..] == buf[pos..][|w|..];
  }

  /** `Feed` past one decoded request. */
  lemma {:induction false} FeedDecoded(buf: Bytes, pos: nat)
    requires pos < |buf|
    requires Run(Initial, buf, pos).Decoded?
    ensures var r := Run(Initial, buf, pos);
      Feed(Initial, buf, pos) == FeedResult([r.header] + Feed(Initial, buf, r.at).headers,
                                            Feed(Initial, buf, r.at).state)
  {
  }
}
