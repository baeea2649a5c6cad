/** The test client's request formatter: a JSON body behind the legacy
    request header, with the type in lower case and the length in UTF-8
    bytes. */
module NettyClient {

  import opened Wrappers
  import opened Bytes
  import Ascii = Bytes
  import Decimal
  import Utf8
  import opened Frames
  import RequestDecoder

  /** The `AssertionError` of the type switch. */
  datatype SendError = DefaultCaseMatched(callType: CallType)

  /** The call types the switch writes a JSON body for. */
  predicate Sendable(t: CallType) {
    t == OPEN || t == DATA || t == JSON || t == CLOSE
  }

  /** `type.name().toLowerCase()`. */
  function LowerName(t: CallType): (r: Bytes)
    ensures forall i :: 0 <= i < |r| ==> r[i] < 128
  {
    ToLower(Name(t))
  }

  /** `String.format("%s://%s/%s/(%s)?%s", ...)` of `send`, with `json`
      the text Jackson wrote for the arguments. */
  function FormatRequest(t: CallType, name: string, session: string, json: string): (r: Result<string, SendError>)
    ensures r.Err? <==> !Sendable(t)
    ensures r.Err? ==> r.error == DefaultCaseMatched(t)
    ensures r.Ok? ==>
      Utf8.Encode(r.value)
      == RequestDecoder.Wire(LowerName(t), Utf8.Encode(name), Utf8.Encode(session),
                             Decimal.Render(|Utf8.Encode(json)|), Utf8.Encode(json))
  {
    if !Sendable(t) then Err(DefaultCaseMatched(t))
    else
      var lengthText := Decimal.Render(|Utf8.Encode(json)|);
      assert forall i :: 0 <= i < |lengthText| ==> lengthText[i] < 128;
      var request := Utf8.Text(LowerName(t)) + "://" + name + "/" + session + "/("
        + Utf8.Text(lengthText) + ")?" + json;
      EncodeRequest(LowerName(t), name, session, lengthText, json);
      Ok(request)
  }

  /** `send(type, name, content)`: the same with an empty session id. */
  function FormatSessionless(t: CallType, name: string, json: string): (r: Result<string, SendError>)
    ensures r.Err? <==> !Sendable(t)
    ensures r.Ok? ==>
      Utf8.Encode(r.value)
      == RequestDecoder.Wire(LowerName(t), Utf8.Encode(name), [], Decimal.Render(|Utf8.Encode(json)|), Utf8.Encode(json))
  {
    FormatRequest(t, name, "", json)
  }

  /** The UTF-8 bytes of the formatted request are its fields' bytes in
      wire order. */
  lemma {:induction false} EncodeRequest(typeText: Bytes, name: string, session: string, lengthText: Bytes, json: string)
    requires forall i :: 0 <= i < |typeText| ==> typeText[i] < 128
    requires forall i :: 0 <= i < |lengthText| ==> lengthText[i] < 128
    ensures Utf8.Encode(Utf8.Text(typeText) + "://" + name + "/" + session + "/(" + Utf8.Text(lengthText) + ")?" + json)
      == RequestDecoder.Wire(typeText, Utf8.Encode(name), Utf8.Encode(session), lengthText, Utf8.Encode(json))
  {
    var a := Utf8.Text(typeText);
    var l := Utf8.Text(lengthText);
    Utf8.EncodeText(typeText);
    Utf8.EncodeText(lengthText);
    Utf8.EncodeAppend(a + "://" + name + "/" + session + "/(" + l + ")?", json);
    Utf8.EncodeAppend(a + "://" + name + "/" + session + "/(" + l, ")?");
    Utf8.EncodeAppend(a + "://" + name + "/" + session + "/(", l);
    Utf8.EncodeAppend(a + "://" + name + "/" + session, "/(");
    Utf8.EncodeAppend(a + "://" + name + "/", session);
    Utf8.EncodeAppend(a + "://" + name, "/");
    Utf8.EncodeAppend(a + "://", name);
    Utf8.EncodeAppend(a, "://");
    assert Utf8.Encode("://") == [Ascii.COLON, SLASH, SLASH];
    assert Utf8.Encode("/") == [SLASH];
    assert Utf8.Encode("/(") == [SLASH, LEFT_PAREN];
    assert Utf8.Encode(")?") == [RIGHT_PAREN, QUESTION];
  }

  /** The lower-case name is read back as its call type: the decoder
      upper-cases before `valueOf`. */
  lemma LowerNameReadsBack(t: CallType)
    ensures Frames.ValueOf(ToUpper(LowerName(t))) == Some(t)
    ensures Excludes(LowerName(t), Ascii.COLON)
  {
    var n := Name(t);
    assert forall i :: 0 <= i < |n| ==> IsAsciiUpper(n[i]);
    UpperOfLower(n);
    Frames.ValueOfName(t);
  }

  /** What the test client sends, the server's replaying decoder reads
      back as the call it meant: its type, name, session id and JSON body,
      consuming exactly the request. Names and session ids must not
      contain `/`, which nothing in the client escapes. */
  lemma {:induction false} RequestRoundTrip(t: CallType, name: string, session: string, json: string)
    requires Sendable(t)
    requires forall i :: 0 <= i < |name| ==> name[i] != '/'
    requires forall i :: 0 <= i < |session| ==> session[i] != '/'
    requires |Utf8.Encode(json)| <= Decimal.MAX_INT
    ensures var r := FormatRequest(t, name, session, json);
      && r.Ok?
      && var buf := Utf8.Encode(r.value);
      && var d := RequestDecoder.Run(RequestDecoder.Initial, buf, 0);
      && d.Decoded?
      && d.at == |buf|
      && Logical(d.header)
         == Frame(t, Utf8.Encode(name), Utf8.Encode(session), |Utf8.Encode(json)|, Utf8.Encode(json))
  {
    var body := Utf8.Encode(json);
    var lengthText := Decimal.Render(|body|);
    var buf := RequestDecoder.Wire(LowerName(t), Utf8.Encode(name), Utf8.Encode(session), lengthText, body);
    LowerNameReadsBack(t);
    Utf8.EncodeExcludes(name, '/');
    Utf8.EncodeExcludes(session, '/');
    Decimal.ParseRender(|body|);
    assert At(buf, 0, buf);
    RequestDecoder.RoundTrip(buf, 0, LowerName(t), Utf8.Encode(name), Utf8.Encode(session), lengthText, body);
  }
}
