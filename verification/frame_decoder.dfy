/** The frame decoder the server pipeline actually installs: a byte loop
    over the same checkpoints as the replaying decoder, whose transitions
    stop after the second slash. Each `decode` call scans from the reader
    index to the end of the cumulated bytes; Netty's `FrameDecoder` calls it
    again while it moves the reader index. */
module FrameDecoder {

  import opened Wrappers
  import opened Bytes
  import Ascii = Bytes
  import Decimal
  import opened Frames
  import opened RequestDecoder

  /** The decoder's fields; Java's `null` is `None`. */
  datatype FrameState = FrameState(
    part: Option<Part>,
    typeText: Option<Bytes>,
    name: Option<Bytes>,
    sessionId: Option<Bytes>,
    length: int)

  const Fresh: FrameState := FrameState(None, None, None, None, 0)

  datatype FrameError =
    | StateCheck(expected: Byte, actual: Byte)
    | OutOfBounds
    | NotANumber(text: Bytes)
    | NoType
    | NoSuchType(text: Bytes)
    | NoProgress

  /** The header the decoder returns; name and session id may still be
      `null`. */
  datatype FrameHeader = FrameHeader(
    callType: CallType,
    aliasedName: Option<Bytes>,
    sessionId: Option<Bytes>,
    contentLength: int,
    content: View)

  /** The outcome of the loop body for one byte index. */
  datatype ByteOutcome =
    | Next(state: FrameState, reader: nat)
    | Threw(error: FrameError)
    | Returned(header: FrameHeader, state: FrameState, reader: nat)

  /** The parts the loop body ever assigns. */
  predicate Assigned(p: Part) {
    p == COLON || p == FIRST_SLASH || p == SECOND_SLASH || p == THIRD_SLASH
    || p == FOURTH_SLASH || p == RIGHT_PARENTHESIS
  }

  /** `buffer.skipBytes(n)`. */
  function Skip(buf: Bytes, reader: nat, n: nat, s: FrameState): (r: ByteOutcome)
    requires reader <= |buf|
    ensures r.Next? <==> reader + n <= |buf|
    ensures r.Next? ==> r == Next(s, reader + n)
    ensures r.Threw? ==> r.error == OutOfBounds
  {
    if reader + n > |buf| then Threw(OutOfBounds) else Next(s, reader + n)
  }

  /** `readAndIncrement`: the text from the reader index up to byte `i`,
      and the reader index moved onto byte `i`. */
  function ReadAndIncrement(buf: Bytes, reader: nat, i: nat): (r: Option<Bytes>)
    requires i < |buf|
    ensures r.Some? <==> reader <= i
    ensures r.Some? ==> r.value == buf[reader..i]
  {
    if i < reader then None else Some(buf[reader..i])
  }

  /** `Preconditions.checkState(c == expected)` followed by `skipBytes(n)`. */
  function CheckThenSkip(buf: Bytes, reader: nat, c: Byte, expected: Byte, n: nat, s: FrameState): (r: ByteOutcome)
    requires reader <= |buf|
    ensures r.Next? <==> c == expected && reader + n <= |buf|
    ensures r.Next? ==> r == Next(s, reader + n)
    ensures c != expected ==> r == Threw(StateCheck(expected, c))
  {
    if c != expected then Threw(StateCheck(expected, c)) else Skip(buf, reader, n, s)
  }

  /** The loop body of `decode` for byte index `i`. */
  function ByteStep(s: FrameState, buf: Bytes, reader: nat, i: nat): (r: ByteOutcome)
    requires reader <= |buf| && i < |buf|
    ensures r.Next? ==> reader <= r.reader <= |buf|
    ensures r.Next? ==>
      || r.state.part == s.part
      || (s.part.None? && r.state.part == Some(TYPE))
      || Assigned(r.state.part.GetOr(TYPE))
    ensures r.Next? ==> r.state.part.Some?
    ensures r.Returned? ==> s.part == Some(CONTENT) && r.state == s && r.reader == reader
  {
    var c := buf[i];
    match s.part.GetOr(TYPE)
    case TYPE =>
      if c != Ascii.COLON then Next(s.(part := Some(TYPE)), reader)
      else
        (match ReadAndIncrement(buf, reader, i)
         case None => Threw(OutOfBounds)
         case Some(text) => Next(s.(part := Some(COLON), typeText := Some(text)), i))
    case COLON => CheckThenSkip(buf, reader, c, SLASH, 1, s.(part := Some(FIRST_SLASH)))
    case FIRST_SLASH => CheckThenSkip(buf, reader, c, SLASH, 1, s.(part := Some(SECOND_SLASH)))
    case SECOND_SLASH => Skip(buf, reader, 1, s)
    case NAME =>
      if c != SLASH then Next(s, reader)
      else
        (match ReadAndIncrement(buf, reader, i)
         case None => Threw(OutOfBounds)
         case Some(text) => Next(s.(part := Some(THIRD_SLASH), name := Some(text)), i))
    case THIRD_SLASH => Skip(buf, reader, 1, s)
    case SESSION_ID =>
      if c != SLASH then Next(s, reader)
      else
        (match ReadAndIncrement(buf, reader, i)
         case None => Threw(OutOfBounds)
         case Some(text) => Next(s.(part := Some(FOURTH_SLASH), sessionId := Some(text)), i))
    case FOURTH_SLASH => CheckThenSkip(buf, reader, c, LEFT_PAREN, 1, s)
    case LEFT_PARENTHESIS => Skip(buf, reader, 1, s)
    case CONTENT_LENGTH =>
      if c != RIGHT_PAREN then Next(s, reader)
      else
        (match ReadAndIncrement(buf, reader, i)
         case None => Threw(OutOfBounds)
         case Some(text) =>
           match Decimal.ParseInt(text)
           case None => Threw(NotANumber(text))
           case Some(n) => Next(s.(part := Some(RIGHT_PARENTHESIS), length := n), i))
    case RIGHT_PARENTHESIS => CheckThenSkip(buf, reader, c, RIGHT_PAREN, i, s)
    case QUESTION_MARK => Skip(buf, reader, 1, s)
    case CONTENT =>
      if s.length < 0 || i + s.length > |buf| then Threw(OutOfBounds)
      else
        match s.typeText
        case None => Threw(NoType)
        case Some(text) =>
          match ValueOf(text)
          case None => Threw(NoSuchType(text))
          case Some(t) =>
            Returned(FrameHeader(t, s.name, s.sessionId, s.length, View(buf, i, s.length)), s, reader)
  }

  /** What one `decode` call leaves: `null` with the new state and reader
      index, an exception, or a header. */
  datatype CallOutcome =
    | Null(state: FrameState, reader: nat)
    | Raised(error: FrameError)
    | Emitted(header: FrameHeader, state: FrameState, reader: nat)

  /** The `for` loop of `decode` from byte index `i` on. */
  function Scan(s: FrameState, buf: Bytes, reader: nat, i: nat): (r: CallOutcome)
    requires reader <= |buf| && i <= |buf|
    ensures r.Null? ==> reader <= r.reader <= |buf|
    ensures r.Emitted? ==> reader <= r.reader <= |buf|
    decreases |buf| - i
  {
    if i == |buf| then Null(s, reader)
    else
      match ByteStep(s, buf, reader, i)
      case Next(s', reader') => Scan(s', buf, reader', i + 1)
      case Threw(e) => Raised(e)
      case Returned(h, s', reader') => Emitted(h, s', reader')
  }

  /** One `decode` call, with the reader index where the loop starts. */
  function Call(s: FrameState, buf: Bytes, reader: nat): (r: CallOutcome)
    requires reader <= |buf|
    ensures r.Null? ==> reader <= r.reader <= |buf|
    ensures r.Emitted? ==> reader <= r.reader <= |buf|
  {
    Scan(s, buf, reader, reader)
  }

  datatype FrameFeedState =
    | Pending(state: FrameState, reader: nat)
    | Stopped(error: FrameError)

  datatype FrameFeedResult = FrameFeedResult(headers: seq<FrameHeader>, end: FrameFeedState)

  /** Netty's `FrameDecoder.callDecode`: call `decode` while bytes remain;
      a `null` that did not move the reader index waits for more bytes, one
      that did is followed by another call, and a frame returned without
      reading anything is an `IllegalStateException`. */
  function FrameFeed(s: FrameState, buf: Bytes, reader: nat): (r: FrameFeedResult)
    requires reader <= |buf|
    ensures r.end.Pending? ==> reader <= r.end.reader <= |buf|
    decreases |buf| - reader
  {
    if reader == |buf| then FrameFeedResult([], Pending(s, reader))
    else
      match Call(s, buf, reader)
      case Null(s', reader') =>
        if reader' == reader then FrameFeedResult([], Pending(s', reader'))
        else FrameFeed(s', buf, reader')
      case Raised(e) => FrameFeedResult([], Stopped(e))
      case Emitted(h, s', reader') =>
        if reader' == reader then FrameFeedResult([], Stopped(NoProgress))
        else
          var rest := FrameFeed(s', buf, reader');
          FrameFeedResult([h] + rest.headers, rest.end)
  }

  // ---------------------------------------------------------------------
  // The decoder never gets past the second slash.

  /** The states reachable from a fresh decoder. */
  predicate Early(s: FrameState) {
    s.part.None? || s.part.value == TYPE || s.part.value == COLON
    || s.part.value == FIRST_SLASH || s.part.value == SECOND_SLASH
  }

  lemma {:induction false} ScanEarly(s: FrameState, buf: Bytes, reader: nat, i: nat)
    requires reader <= |buf| && i <= |buf|
    requires Early(s)
    ensures !Scan(s, buf, reader, i).Emitted?
    ensures Scan(s, buf, reader, i).Null? ==> Early(Scan(s, buf, reader, i).state)
    decreases |buf| - i
  {
    if i < |buf| {
      var o := ByteStep(s, buf, reader, i);
      if o.Next? {
        ScanEarly(o.state, buf, o.reader, i + 1);
      }
    }
  }

  /** Whatever bytes arrive, and however they are split into chunks, the
      installed decoder returns no header: its waiting state stays among
      the first four checkpoints. */
  lemma {:induction false} NeverEmits(s: FrameState, buf: Bytes, reader: nat)
    requires reader <= |buf| && Early(s)
    ensures FrameFeed(s, buf, reader).headers == []
    ensures FrameFeed(s, buf, reader).end.Pending? ==> Early(FrameFeed(s, buf, reader).end.state)
    decreases |buf| - reader
  {
    if reader < |buf| {
      ScanEarly(s, buf, reader, reader);
      var o := Call(s, buf, reader);
      if o.Null? && o.reader != reader {
        NeverEmits(o.state, buf, o.reader);
      }
    }
  }

  // ---------------------------------------------------------------------
  // What it does with a request.

  /** The state after the type and `://`. */
  function Skipping(typeText: Bytes): FrameState {
    FrameState(Some(SECOND_SLASH), Some(typeText), None, None, 0)
  }

  /** Scanning the type: no byte before the colon changes anything. */
  lemma {:induction false} ScanType(s: FrameState, buf: Bytes, reader: nat, i: nat, a: nat)
    requires s.part == None || s.part == Some(TYPE)
    requires reader <= i <= a < |buf|
    requires Excludes(buf[i..a], Ascii.COLON) && buf[a] == Ascii.COLON
    ensures Scan(s, buf, reader, i)
         == Scan(s.(part := Some(COLON), typeText := Some(buf[reader..a])), buf, a, a + 1)
    decreases a - i
  {
    if i < a {
      assert buf[i] == buf[i..a][0];
      assert buf[i + 1..a] == buf[i..a][1..];
      ScanType(s.(part := Some(TYPE)), buf, reader, i + 1, a);
    }
  }

  /** Past the second slash every byte is skipped: the reader index trails
      the loop index by the one byte it started behind. */
  lemma {:induction false} ScanSkipping(s: FrameState, buf: Bytes, reader: nat, i: nat)
    requires s.part == Some(SECOND_SLASH)
    requires i <= |buf| && reader + (|buf| - i) <= |buf|
    ensures Scan(s, buf, reader, i) == Null(s, reader + (|buf| - i))
    decreases |buf| - i
  {
    if i < |buf| {
      ScanSkipping(s, buf, reader + 1, i + 1);
    }
  }

  /** Fed a buffer that holds a type, `://` and anything after it, the
      decoder reads the type, skips every later byte and waits at the
      second slash without a header. */
  lemma {:induction false} SwallowsRequest(buf: Bytes, pos: nat, typeText: Bytes)
    requires pos + |typeText| + 3 <= |buf|
    requires buf[pos..pos + |typeText|] == typeText && Excludes(typeText, Ascii.COLON)
    requires buf[pos + |typeText|] == Ascii.COLON
    requires buf[pos + |typeText| + 1] == SLASH && buf[pos + |typeText| + 2] == SLASH
    ensures FrameFeed(Fresh, buf, pos) == FrameFeedResult([], Pending(Skipping(typeText), |buf|))
  {
    var a := pos + |typeText|;
    var s := Skipping(typeText);
    ScanType(Fresh, buf, pos, pos, a);
    var s1 := Fresh.(part := Some(COLON), typeText := Some(typeText));
    assert ByteStep(s1, buf, a, a + 1) == Next(s1.(part := Some(FIRST_SLASH)), a + 1);
    assert ByteStep(s1.(part := Some(FIRST_SLASH)), buf, a + 1, a + 2) == Next(s, a + 2);
    ScanSkipping(s, buf, a + 2, a + 3);
    assert Call(Fresh, buf, pos) == Null(s, |buf| - 1);
    ScanSkipping(s, buf, |buf| - 1, |buf| - 1);
    assert Call(s, buf, |buf| - 1) == Null(s, |buf|);
    assert FrameFeed(s, buf, |buf| - 1) == FrameFeed(s, buf, |buf|);
  }

  /** A chunk that ends right after the type's colon breaks the decoder:
      the next call finds the reader index on the colon and checks it
      against `/`. */
  lemma {:induction false} ColonAtChunkEnd(buf: Bytes, pos: nat, typeText: Bytes)
    requires typeText != [] && pos + |typeText| + 1 == |buf|
    requires buf[pos..pos + |typeText|] == typeText && Excludes(typeText, Ascii.COLON)
    requires buf[pos + |typeText|] == Ascii.COLON
    ensures FrameFeed(Fresh, buf, pos) == FrameFeedResult([], Stopped(StateCheck(SLASH, Ascii.COLON)))
  {
    var a := pos + |typeText|;
    ScanType(Fresh, buf, pos, pos, a);
    var s1 := Fresh.(part := Some(COLON), typeText := Some(typeText));
    assert Call(Fresh, buf, pos) == Null(s1, a);
    assert Call(s1, buf, a) == Raised(StateCheck(SLASH, Ascii.COLON));
  }

  /** Every well-formed request whose type has no colon is dropped by the
      installed decoder, although the replaying decoder reads it. */
  lemma {:induction false} DropsRequest(q: Request)
    requires RequestReadable(q)
    ensures FrameFeed(Fresh, RequestWire(q), 0).headers == []
    ensures Run(Initial, RequestWire(q), 0).Decoded?
  {
    var w := RequestWire(q);
    var a := |q.typeText|;
    WireType(q.typeText, q.name, q.session, q.lengthText, q.content);
    assert w[0..a] == q.typeText;
    SwallowsRequest(w, 0, q.typeText);
    assert At(w, 0, w);
    RoundTrip(w, 0, q.typeText, q.name, q.session, q.lengthText, q.content);
  }
}
