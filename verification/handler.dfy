/** The connection handler: a map from channels to per-connection HTTP
    requests, and the OPEN, CLOSE and call transitions driven by decoded
    calls. Registry notifications, scope entry and exit and request
    clearing are recorded, in order, as an event trace; channel writes are
    an output log; the close future completes at once. */
module Handler {

  import opened Wrappers
  import opened Frames
  import Execution

  type Channel = nat

  /** `InternalHttpRequest`: its identity, the session it is attached to,
      and the four strings OPEN copies from the arguments. */
  datatype Request = Request(
    id: nat,
    session: Option<Execution.SessionId>,
    referer: Option<string>,
    remoteAddress: Option<string>,
    requestUri: Option<string>,
    userAgent: Option<string>)

  datatype Event =
    | ConnectionCreate(request: nat)
    | CallCreate(call: nat)
    | ScopeEnter(call: nat)
    | CurrentCallSet(call: nat)
    | CurrentCallCleaned
    | ScopeExit
    | CallDestroy(call: nat)
    | CallCleared(call: nat)
    | ConnectionDestroy(destroyed: Option<nat>)
    | RequestCleared(request: nat)

  datatype Write = Write(channel: Channel, content: Execution.Content)

  datatype State = State(
    requests: map<Channel, Request>,
    nextRequest: nat,
    trace: seq<Event>,
    written: seq<Write>,
    closed: set<Channel>)

  const Initial := State(map[], 0, [], [], {})

  /** `getString` on a call's arguments: a value, null, or an exception. */
  type Lookup = string -> Result<Option<string>, Execution.Throwable>

  /** A decoded call as the handler sees it: `getArguments` may throw, and
      only the decoders' own calls are detached. */
  datatype IncomingCall = IncomingCall(
    id: nat,
    callType: CallType,
    sessionId: string,
    aliasedName: Option<string>,
    arguments: Result<Lookup, Execution.Throwable>,
    detached: bool)

  datatype Message = CallMessage(call: IncomingCall) | OtherMessage

  /** The state after a message and the exception `messageReceived` threw,
      if any; effects before the exception are kept. */
  datatype Step = Step(state: State, thrown: Option<Execution.Throwable>)

  /** `IpcSessionProvider.getSession(sessionId, remoteAddress)`; `None` is
      a null session, which the session adapter rejects. */
  type SessionProvider = (string, Option<string>) -> Option<Execution.SessionId>

  const REQUEST_URI: string := "REQUEST_URI"
  const HTTP_REFERER: string := "HTTP_REFERER"
  const REMOTE_ADDR: string := "REMOTE_ADDR"
  const HTTP_USER_AGENT: string := "HTTP_USER_AGENT"

  /** Request identities are below the counter and distinct per channel. */
  predicate Valid(s: State) {
    && (forall ch :: ch in s.requests ==> s.requests[ch].id < s.nextRequest)
    && (forall a, b :: a in s.requests && b in s.requests && a != b ==>
          s.requests[a].id != s.requests[b].id)
  }

  /** `channelConnected`: a new, unattached request for the channel. */
  function Connected(s: State, ch: Channel): (r: State)
    ensures ch in r.requests && r.requests[ch].session.None?
    ensures Valid(s) ==> r.requests[ch].id !in set c | c in s.requests :: s.requests[c].id
    ensures forall c :: c != ch ==> (c in r.requests <==> c in s.requests)
    ensures forall c :: c != ch && c in s.requests ==> r.requests[c] == s.requests[c]
    ensures r.trace == s.trace && r.written == s.written
    ensures Valid(s) ==> Valid(r)
  {
    var request := Request(s.nextRequest, None, None, None, None, None);
    var r := s.(requests := s.requests[ch := request], nextRequest := s.nextRequest + 1);
    r
  }

  /** `channelDisconnected`: only logs; an unclosed request stays mapped. */
  function Disconnected(s: State, ch: Channel): (r: State)
    ensures r.requests == s.requests && r.trace == s.trace
  {
    s
  }

  /** `exceptionCaught`: the channel is closed, bypassing `close`, so its
      request stays in the map and no destroy event is sent. */
  function Caught(s: State, ch: Channel): (r: State)
    ensures ch in r.closed
    ensures r.requests == s.requests && r.trace == s.trace && r.written == s.written
  {
    s.(closed := s.closed + {ch})
  }

  function SetField(s: State, ch: Channel, req: Request): State
    requires ch in s.requests
  {
    s.(requests := s.requests[ch := req])
  }

  /** `open`: the four strings are read from the arguments and stored, the
      provider's session for (header session id, remote address) is
      attached, replacing any earlier one, and connection-create is sent.
      Nothing is written back. */
  function Open(s: State, ch: Channel, call: IncomingCall, provider: SessionProvider): (r: Step)
    ensures r.state.written == s.written && r.state.nextRequest == s.nextRequest
    ensures r.state.requests.Keys == s.requests.Keys
    ensures forall c :: c != ch && c in s.requests ==> r.state.requests[c] == s.requests[c]
    ensures ch in s.requests ==> r.state.requests[ch].id == s.requests[ch].id
    ensures ch !in s.requests ==> r.state == s && r.thrown.Some?
    ensures r.thrown.Some? <==> r.state.trace == s.trace
    ensures r.thrown.None? <==>
      && ch in s.requests
      && call.arguments.Ok?
      && call.arguments.value(HTTP_REFERER).Ok?
      && call.arguments.value(REMOTE_ADDR).Ok?
      && call.arguments.value(REQUEST_URI).Ok?
      && call.arguments.value(HTTP_USER_AGENT).Ok?
      && provider(call.sessionId, call.arguments.value(REMOTE_ADDR).value).Some?
    ensures r.thrown.None? ==>
      var get := call.arguments.value;
      && r.state.requests[ch] == Request(
           s.requests[ch].id,
           provider(call.sessionId, get(REMOTE_ADDR).value),
           get(HTTP_REFERER).value, get(REMOTE_ADDR).value,
           get(REQUEST_URI).value, get(HTTP_USER_AGENT).value)
      && r.state.trace == s.trace + [ConnectionCreate(s.requests[ch].id)]
    ensures Valid(s) ==> Valid(r.state)
  {
    match call.arguments
    case Err(t) => Step(s, Some(t))
    case Ok(get) =>
      match get(HTTP_REFERER)
      case Err(t) => Step(s, Some(t))
      case Ok(referer) =>
        if ch !in s.requests then Step(s, Some(Execution.NullPointer("request")))
        else
          var s1 := SetField(s, ch, s.requests[ch].(referer := referer));
          match get(REMOTE_ADDR)
          case Err(t) => Step(s1, Some(t))
          case Ok(remote) =>
            var s2 := SetField(s1, ch, s1.requests[ch].(remoteAddress := remote));
            match get(REQUEST_URI)
            case Err(t) => Step(s2, Some(t))
            case Ok(uri) =>
              var s3 := SetField(s2, ch, s2.requests[ch].(requestUri := uri));
              match get(HTTP_USER_AGENT)
              case Err(t) => Step(s3, Some(t))
              case Ok(agent) =>
                var s4 := SetField(s3, ch, s3.requests[ch].(userAgent := agent));
                match provider(call.sessionId, remote)
                case None => Step(s4, Some(Execution.NullPointer("Session")))
                case Some(session) =>
                  var s5 := SetField(s4, ch, s4.requests[ch].(session := Some(session)));
                  Step(s5.(trace := s5.trace + [ConnectionCreate(s5.requests[ch].id)]), None)
  }

  /** The events `call` records around one execution, in order. */
  function CallEvents(id: nat): seq<Event>
  {
    [CallCreate(id), ScopeEnter(id), CurrentCallSet(id), CurrentCallCleaned, ScopeExit,
     CallDestroy(id), CallCleared(id)]
  }

  /** What the executor sees of a call attached to `request`. */
  function ViewOf(call: IncomingCall, request: Request): Execution.CallView
  {
    Execution.CallView(call.aliasedName, Some(Execution.RequestView(request.session)))
  }

  /** A call that is neither OPEN nor CLOSE: a detached call is attached to
      its channel's request and executed inside the call scope, and the
      content is written. The `finally` events are recorded even when the
      executor throws. */
  function Invoke(s: State, ch: Channel, call: IncomingCall, reg: Execution.Registry): (r: Step)
    ensures r.state.requests == s.requests && r.state.nextRequest == s.nextRequest
    ensures !call.detached ==> r.state == s && r.thrown.Some? && r.thrown.value.IllegalState?
    ensures call.detached && ch !in s.requests ==>
      r.state == s && r.thrown == Some(Execution.NullPointer("Request"))
    ensures call.detached && ch in s.requests ==>
      var outcome := Execution.Execute(reg, ViewOf(call, s.requests[ch]));
      && r.state.trace == s.trace + CallEvents(call.id)
      && (outcome.Ok? ==> r.thrown.None? && r.state.written == s.written + [Write(ch, outcome.value)])
      && (outcome.Err? ==> r.thrown == Some(outcome.error) && r.state.written == s.written)
    ensures r.thrown.Some? ==> !Execution.IsRuntime(r.thrown.value) ==> r.state.trace == s.trace + CallEvents(call.id)
  {
    if !call.detached then Step(s, Some(Execution.IllegalState("call is of unknown type")))
    else if ch !in s.requests then Step(s, Some(Execution.NullPointer("Request")))
    else
      var outcome := Execution.Execute(reg, ViewOf(call, s.requests[ch]));
      var traced := s.(trace := s.trace + CallEvents(call.id));
      match outcome
      case Ok(content) => Step(traced.(written := s.written + [Write(ch, content)]), None)
      case Err(t) => Step(traced, Some(t))
  }

  /** `close`: the channel is closed; on completion its request leaves the
      map, a silent connection-destroy is sent and the request is cleared.
      For a channel without a request the event carries null and clearing
      it fails inside the listener, which only Netty sees. */
  function Close(s: State, ch: Channel): (r: Step)
    ensures r.thrown.None? && ch in r.state.closed
    ensures r.state.requests == s.requests - {ch} && r.state.written == s.written
    ensures ch in s.requests ==>
      r.state.trace == s.trace + [ConnectionDestroy(Some(s.requests[ch].id)), RequestCleared(s.requests[ch].id)]
    ensures ch !in s.requests ==> r.state.trace == s.trace + [ConnectionDestroy(None)]
  {
    var closed := s.(closed := s.closed + {ch}, requests := s.requests - {ch});
    if ch in s.requests then
      var id := s.requests[ch].id;
      Step(closed.(trace := s.trace + [ConnectionDestroy(Some(id)), RequestCleared(id)]), None)
    else
      Step(closed.(trace := s.trace + [ConnectionDestroy(None)]), None)
  }

  /** `messageReceived`: only calls are handled, by their header's type. */
  function Received(s: State, ch: Channel, m: Message, reg: Execution.Registry, provider: SessionProvider)
    : (r: Step)
    ensures m.OtherMessage? ==> r == Step(s, None)
    ensures m.CallMessage? && m.call.callType == OPEN ==> r == Open(s, ch, m.call, provider)
    ensures m.CallMessage? && m.call.callType == CLOSE ==> r == Close(s, ch)
    ensures m.CallMessage? && m.call.callType != OPEN && m.call.callType != CLOSE ==>
      r == Invoke(s, ch, m.call, reg)
    ensures r.state.nextRequest == s.nextRequest
    ensures r.state.requests.Keys <= s.requests.Keys
    ensures forall c :: c in r.state.requests ==> r.state.requests[c].id == s.requests[c].id
    ensures forall c :: c != ch && c in r.state.requests ==> r.state.requests[c] == s.requests[c]
    ensures s.written <= r.state.written && |r.state.written| <= |s.written| + 1
    ensures |r.state.written| > |s.written| ==> r.state.written[|s.written|].channel == ch
  {
    match m
    case OtherMessage => Step(s, None)
    case CallMessage(call) =>
      if call.callType == OPEN then Open(s, ch, call, provider)
      else if call.callType == CLOSE then Close(s, ch)
      else Invoke(s, ch, call, reg)
  }

  /** Every transition keeps request identities distinct. */
  lemma {:induction false} ReceivedPreservesValid(s: State, ch: Channel, m: Message,
                                                  reg: Execution.Registry, provider: SessionProvider)
    requires Valid(s)
    ensures Valid(Received(s, ch, m, reg, provider).state)
  {
    if m.CallMessage? && m.call.callType == CLOSE {
      var r := Close(s, ch).state;
      assert forall c :: c in r.requests ==> c in s.requests && r.requests[c] == s.requests[c];
    }
  }

  /** A whole connection: connect, a successful OPEN, one call, CLOSE. The
      call runs against the session OPEN attached, and the trace is the
      connection's events bracketing the call's. */
  lemma {:induction false} Lifecycle(s: State, ch: Channel, open: IncomingCall, call: IncomingCall,
                                     reg: Execution.Registry, provider: SessionProvider)
    requires ch !in s.requests
    requires open.callType == OPEN && call.callType !in {OPEN, CLOSE} && call.detached
    requires open.arguments.Ok?
    requires forall k :: k in [HTTP_REFERER, REMOTE_ADDR, REQUEST_URI, HTTP_USER_AGENT] ==>
               open.arguments.value(k).Ok?
    requires provider(open.sessionId, open.arguments.value(REMOTE_ADDR).value).Some?
    ensures
      var s1 := Connected(s, ch);
      var s2 := Received(s1, ch, CallMessage(open), reg, provider);
      var s3 := Received(s2.state, ch, CallMessage(call), reg, provider);
      var s4 := Received(s3.state, ch, CallMessage(IncomingCall(call.id + 1, CLOSE, "", None, open.arguments, true)), reg, provider);
      var session := provider(open.sessionId, open.arguments.value(REMOTE_ADDR).value);
      var outcome := Execution.Execute(reg, Execution.CallView(call.aliasedName, Some(Execution.RequestView(session))));
      var id := s.nextRequest;
      && s2.thrown.None?
      && (outcome.Ok? ==> s3.thrown.None? && s4.state.written == s.written + [Write(ch, outcome.value)])
      && s4.state.requests == s.requests
      && s4.state.trace == s.trace + [ConnectionCreate(id)] + CallEvents(call.id)
                           + [ConnectionDestroy(Some(id)), RequestCleared(id)]
  {
    assert REMOTE_ADDR in [HTTP_REFERER, REMOTE_ADDR, REQUEST_URI, HTTP_USER_AGENT];
    assert HTTP_REFERER in [HTTP_REFERER, REMOTE_ADDR, REQUEST_URI, HTTP_USER_AGENT];
    assert REQUEST_URI in [HTTP_REFERER, REMOTE_ADDR, REQUEST_URI, HTTP_USER_AGENT];
    assert HTTP_USER_AGENT in [HTTP_REFERER, REMOTE_ADDR, REQUEST_URI, HTTP_USER_AGENT];
    var s1 := Connected(s, ch);
    var s2 := Received(s1, ch, CallMessage(open), reg, provider);
    assert s2.state.requests[ch].session == provider(open.sessionId, open.arguments.value(REMOTE_ADDR).value);
    var s3 := Received(s2.state, ch, CallMessage(call), reg, provider);
    assert s3.state.requests == s2.state.requests;
    assert s3.state.requests - {ch} == s.requests;
  }
}
