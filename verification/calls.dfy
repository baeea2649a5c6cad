/** The call layer behind the frame decoder: a decoded header becomes one of
    six call variants, whose arguments, text and attached request are read
    through the accessors modelled here. Two decoders do this. The newer
    one (`LegacyHeaderDecoder`) reads exactly `contentLength` bytes of the
    content; the older one (`LegacyDecoder`, the one the pipeline wires)
    reads the content's whole backing array. */
module Calls {

  import opened Wrappers
  import opened Bytes
  import opened Frames
  import RequestDecoder

  // ---------------------------------------------------------------------
  // Classification.

  /** The six call classes the decoders construct. */
  datatype Variant =
    | OpenCall | InternalDataCall | InternalJsonCall | InternalTextCall | InternalBinaryCall | CloseCall

  /** The `switch (header.getCallType())` both decoders share. */
  function Classify(t: CallType): (v: Variant)
    ensures t == OPEN <==> v == OpenCall
    ensures t == DATA <==> v == InternalDataCall
    ensures t == JSON <==> v == InternalJsonCall
    ensures t == TEXT <==> v == InternalTextCall
    ensures t == BINARY <==> v == InternalBinaryCall
    ensures t == CLOSE <==> v == CloseCall
  {
    match t
    case OPEN => OpenCall
    case DATA => InternalDataCall
    case JSON => InternalJsonCall
    case TEXT => InternalTextCall
    case BINARY => InternalBinaryCall
    case CLOSE => CloseCall
  }

  /** The call type a variant is made for. */
  function TypeOf(v: Variant): CallType {
    match v
    case OpenCall => OPEN
    case InternalDataCall => DATA
    case InternalJsonCall => JSON
    case InternalTextCall => TEXT
    case InternalBinaryCall => BINARY
    case CloseCall => CLOSE
  }

  /** Classification loses nothing: every call type has its own variant,
      and every variant is reached. */
  lemma ClassifyBijective(t: CallType, v: Variant)
    ensures TypeOf(Classify(t)) == t
    ensures Classify(TypeOf(v)) == v
  {
  }

  /** The variants whose arguments come from the JSON content. */
  predicate HasArguments(v: Variant) {
    v == OpenCall || v == InternalDataCall || v == InternalJsonCall
  }

  // ---------------------------------------------------------------------
  // Calls.

  /** Which decoder built a call: where its text comes from. */
  datatype TextSource =
    | ContentLength   // `LegacyHeaderDecoder.decodeContent`
    | BackingArray    // `LegacyDecoder`: `getContent().array()`

  /** An abstract JSON value; `Null` is a Java `null`. */
  datatype Value = Null | Value(id: nat)

  datatype Entry = Entry(key: string, value: Value)

  /** A JSON object's entries in iteration order. */
  type Entries = seq<Entry>

  /** org.json's parser, `new JSONObject(text)`: `None` for a
      `JSONException`. */
  type Parser = Bytes -> Option<Entries>

  datatype CallError =
    | UnknownType
    | Unsupported(variant: Variant)
    | NegativeArraySize(length: int)
    | BufferUnderflow
    | BadJson(text: Bytes)
    | MissingArgument(key: string)
    | NullRequest

  /** A call object: its class, header and request, and what it has
      cached. `position` is the content buffer's read position, which
      `decodeContent` advances; `text` is a computed text, `arguments` the
      loaded JSON object, `context` the scope map once created. */
  datatype Call = Call(
    source: TextSource,
    variant: Variant,
    header: Header,
    request: Option<nat>,
    context: Option<map<nat, nat>>,
    position: nat,
    text: Option<Bytes>,
    arguments: Option<Entries>)

  /** What construction leaves behind: the content-length decoder has read
      the JSON variants' text already. */
  predicate Valid(c: Call) {
    && c.variant == Classify(c.header.callType)
    && (c.source == ContentLength && HasArguments(c.variant) ==> c.text.Some?)
    && (c.source == ContentLength && c.text.None? ==> c.position == 0)
    && (c.source == ContentLength && c.text.Some? ==> DecodeContent(c.header, 0) == Ok(c.text.value))
    && (c.source == BackingArray && c.text.Some? ==> c.text.value == c.header.content.backing)
  }

  datatype Message = HeaderMessage(header: Header) | OtherMessage(tag: nat)

  datatype Decoded = CallOf(call: Call) | Passed(message: Message)

  /** `decodeContent`: `new byte[contentLength]` filled by `get` from the
      content buffer's current position. */
  function DecodeContent(h: Header, position: nat): (r: Result<Bytes, CallError>)
    ensures r.Ok? <==> 0 <= h.contentLength && position + h.contentLength <= h.content.size
    ensures r.Ok? ==> r.value == Data(h.content)[position..position + h.contentLength]
    ensures h.contentLength < 0 ==> r == Err(NegativeArraySize(h.contentLength))
  {
    if h.contentLength < 0 then Err(NegativeArraySize(h.contentLength))
    else if position + h.contentLength > h.content.size then Err(BufferUnderflow)
    else Ok(Data(h.content)[position..position + h.contentLength])
  }

  /** A call as its constructor leaves it. */
  function Construct(source: TextSource, h: Header): (r: Result<Call, CallError>)
    ensures r.Ok? ==> Valid(r.value) && r.value.header == h && r.value.source == source
    ensures r.Ok? ==> r.value.request.None? && r.value.arguments.None? && r.value.context.None?
    ensures r.Err? <==> source == ContentLength && HasArguments(Classify(h.callType))
                        && DecodeContent(h, 0).Err?
    ensures r.Ok? && source == ContentLength && HasArguments(Classify(h.callType)) ==>
      r.value.text == Some(Data(h.content)[..h.contentLength])
    ensures r.Ok? && !(source == ContentLength && HasArguments(Classify(h.callType))) ==>
      r.value.text.None?
  {
    var v := Classify(h.callType);
    var initial := Call(source, v, h, None, None, 0, None, None);
    if source == ContentLength && HasArguments(v) then
      match DecodeContent(h, 0)
      case Err(e) => Err(e)
      case Ok(t) => Ok(initial.(position := h.contentLength, text := Some(t)))
    else Ok(initial)
  }

  /** `decode(context, channel, message)` of either decoder. */
  function Decode(source: TextSource, m: Message): (r: Result<Decoded, CallError>)
    ensures m.OtherMessage? ==> r == Ok(Passed(m))
    ensures m.HeaderMessage? && r.Ok? ==>
      && r.value.CallOf?
      && r.value.call.variant == Classify(m.header.callType)
      && r.value.call.header == m.header
      && Valid(r.value.call)
  {
    match m
    case OtherMessage(_) => Ok(Passed(m))
    case HeaderMessage(h) =>
      match Construct(source, h)
      case Err(e) => Err(e)
      case Ok(c) => Ok(CallOf(c))
  }

  /** The two decoders build the same variant for every header they
      accept. */
  lemma DecodersClassifyAlike(h: Header)
    requires Construct(ContentLength, h).Ok?
    ensures Construct(BackingArray, h).Ok?
    ensures Construct(ContentLength, h).value.variant == Construct(BackingArray, h).value.variant
    ensures Construct(ContentLength, h).value.header == Construct(BackingArray, h).value.header
  {
  }

  // ---------------------------------------------------------------------
  // Texts.

  /** The text the JSON part of a call parses: the text read at
      construction, or the whole backing array. */
  function JsonText(c: Call): (r: Bytes)
    requires Valid(c) && HasArguments(c.variant)
    ensures c.source == BackingArray ==> r == c.header.content.backing
    ensures c.source == ContentLength ==>
      0 <= c.header.contentLength <= c.header.content.size
      && r == Data(c.header.content)[..c.header.contentLength]
  {
    match c.source
    case ContentLength => c.text.value
    case BackingArray => c.header.content.backing
  }

  /** `InternalTextCall.getText`: computed once, then the cached text. */
  function GetText(c: Call): (r: Result<(Bytes, Call), CallError>)
    requires Valid(c) && c.variant == InternalTextCall
    ensures c.text.Some? ==> r == Ok((c.text.value, c))
    ensures r.Ok? ==> r.value.1.text == Some(r.value.0) && Valid(r.value.1)
    ensures r.Ok? ==> r.value.1 == c.(text := r.value.1.text, position := r.value.1.position)
    ensures c.source == BackingArray ==> r.Ok? && r.value.0 == c.header.content.backing
    ensures c.source == ContentLength ==> (r.Ok? <==> DecodeContent(c.header, 0).Ok?)
    ensures c.source == ContentLength && r.Ok? ==> r.value.0 == DecodeContent(c.header, 0).value
  {
    if c.text.Some? then Ok((c.text.value, c))
    else
      match c.source
      case BackingArray => Ok((c.header.content.backing, c.(text := Some(c.header.content.backing))))
      case ContentLength =>
        match DecodeContent(c.header, c.position)
        case Err(e) => Err(e)
        case Ok(t) => Ok((t, c.(text := Some(t), position := c.position + c.header.contentLength)))
  }

  /** Reading the text again returns the same text and changes nothing.
      Without the cache a second `decodeContent` would find the content
      buffer drained. */
  lemma {:induction false} GetTextOnce(c: Call)
    requires Valid(c) && c.variant == InternalTextCall
    requires GetText(c).Ok?
    ensures var (t, c1) := GetText(c).value;
      GetText(c1) == Ok((t, c1))
  {
  }

  /** A header whose content view holds exactly its declared length: the
      content-length decoder's text is that content, the backing-array
      decoder's text is the whole array. */
  lemma {:induction false} TextOfHeader(h: Header)
    requires HasArguments(Classify(h.callType))
    requires 0 <= h.contentLength == h.content.size
    ensures Construct(ContentLength, h).Ok? && Construct(BackingArray, h).Ok?
    ensures JsonText(Construct(ContentLength, h).value) == Data(h.content)
    ensures JsonText(Construct(BackingArray, h).value) == h.content.backing
  {
    assert Data(h.content)[0..h.contentLength] == Data(h.content);
  }

  /** Reading the whole backing array, the older decoder parses the
      request's header bytes along with its content: for a request decoded
      by the replaying decoder, the text is the entire request. */
  lemma {:induction false} WholeArrayText(buf: Bytes, q: RequestDecoder.Request)
    requires RequestDecoder.RequestReadable(q)
    requires buf == RequestDecoder.RequestWire(q)
    requires HasArguments(Classify(RequestDecoder.RequestFrame(q).callType))
    ensures var d := RequestDecoder.Run(RequestDecoder.Initial, buf, 0);
      && d.Decoded?
      && Logical(d.header) == RequestDecoder.RequestFrame(q)
      && Construct(BackingArray, d.header).Ok?
      && JsonText(Construct(BackingArray, d.header).value) == buf
      && buf != q.content
  {
    assert At(buf, 0, buf);
    RequestDecoder.RoundTrip(buf, 0, q.typeText, q.name, q.session, q.lengthText, q.content);
    RequestDecoder.DecodedView(RequestDecoder.Initial, buf, 0);
    var h := RequestDecoder.Run(RequestDecoder.Initial, buf, 0).header;
    TextOfHeader(h);
    assert |buf| > |q.content|;
  }

  /** Reading `contentLength` bytes, the JSON text of a request decoded by
      the replaying decoder is exactly the request's content. */
  lemma {:induction false} ContentLengthText(buf: Bytes, pos: nat, q: RequestDecoder.Request)
    requires RequestDecoder.RequestReadable(q)
    requires At(buf, pos, RequestDecoder.RequestWire(q))
    requires HasArguments(Classify(RequestDecoder.RequestFrame(q).callType))
    ensures var d := RequestDecoder.Run(RequestDecoder.Initial, buf, pos);
      && d.Decoded?
      && Logical(d.header) == RequestDecoder.RequestFrame(q)
      && Construct(ContentLength, d.header).Ok?
      && JsonText(Construct(ContentLength, d.header).value) == q.content
  {
    RequestDecoder.RoundTrip(buf, pos, q.typeText, q.name, q.session, q.lengthText, q.content);
    RequestDecoder.DecodedView(RequestDecoder.Initial, buf, pos);
    var h := RequestDecoder.Run(RequestDecoder.Initial, buf, pos).header;
    TextOfHeader(h);
  }

  // ---------------------------------------------------------------------
  // Arguments.

  /** `getArguments().entrySet()`: unsupported outside the JSON variants,
      otherwise `lazyLoad`, which parses once and keeps the object. */
  function Arguments(c: Call, parse: Parser): (r: Result<(Entries, Call), CallError>)
    requires Valid(c)
    ensures !HasArguments(c.variant) ==> r == Err(Unsupported(c.variant))
    ensures HasArguments(c.variant) && c.arguments.Some? ==> r == Ok((c.arguments.value, c))
    ensures HasArguments(c.variant) && c.arguments.None? ==>
      match parse(JsonText(c))
      case None => r == Err(BadJson(JsonText(c)))
      case Some(es) => r == Ok((es, c.(arguments := Some(es))))
  {
    if !HasArguments(c.variant) then Err(Unsupported(c.variant))
    else if c.arguments.Some? then Ok((c.arguments.value, c))
    else
      var text := JsonText(c);
      match parse(text)
      case None => Err(BadJson(text))
      case Some(es) => Ok((es, c.(arguments := Some(es))))
  }

  /** Once loaded, the arguments are served from the loaded object: a
      second read returns the same entries and changes nothing. */
  lemma {:induction false} ArgumentsOnce(c: Call, parse: Parser)
    requires Valid(c) && Arguments(c, parse).Ok?
    ensures var (es, c1) := Arguments(c, parse).value;
      Valid(c1) && Arguments(c1, parse) == Ok((es, c1))
  {
  }

  predicate HasKey(es: Entries, key: string) {
    exists i :: 0 <= i < |es| && es[i].key == key
  }

  /** The first key of `keys` missing from `es`, if any. */
  function FirstMissing(es: Entries, keys: seq<string>): (r: Option<nat>)
    ensures r.Some? ==> r.value < |keys| && !HasKey(es, keys[r.value])
    ensures r.Some? ==> forall j :: 0 <= j < r.value ==> HasKey(es, keys[j])
    ensures r.None? ==> forall j :: 0 <= j < |keys| ==> HasKey(es, keys[j])
  {
    if keys == [] then None
    else if !HasKey(es, keys[0]) then Some(0)
    else match FirstMissing(es, keys[1..])
      case None => None
      case Some(i) => Some(i + 1)
  }

  /** `require(keys)`: fails on the first absent key, in the order given. */
  function Require(c: Call, keys: seq<string>, parse: Parser): (r: Result<Call, CallError>)
    requires Valid(c)
    ensures r.Ok? ==> Arguments(c, parse).Ok? && r.value == Arguments(c, parse).value.1
    ensures r.Ok? ==> forall j :: 0 <= j < |keys| ==> HasKey(Arguments(c, parse).value.0, keys[j])
    ensures Arguments(c, parse).Ok? && r.Err? ==>
      exists i :: 0 <= i < |keys| && r.error == MissingArgument(keys[i])
        && !HasKey(Arguments(c, parse).value.0, keys[i])
        && forall j :: 0 <= j < i ==> HasKey(Arguments(c, parse).value.0, keys[j])
    ensures Arguments(c, parse).Err? ==> r == Err(Arguments(c, parse).error)
  {
    match Arguments(c, parse)
    case Err(e) => Err(e)
    case Ok((es, c1)) =>
      match FirstMissing(es, keys)
      case Some(i) => Err(MissingArgument(keys[i]))
      case None => Ok(c1)
  }

  /** `put(key, value)` on the arguments: org.json's `put` replaces the
      entry, or removes it for a `null` value, and returns the object
      itself, which is all the caller gets back. */
  function Put(c: Call, key: string, value: Value, parse: Parser): (r: Result<Call, CallError>)
    requires Valid(c)
    ensures Arguments(c, parse).Err? ==> r == Err(Arguments(c, parse).error)
    ensures Arguments(c, parse).Ok? ==> r.Ok?
    ensures r.Ok? ==> Valid(r.value) && r.value.arguments.Some?
    ensures r.Ok? && value.Null? ==> !HasKey(r.value.arguments.value, key)
    ensures r.Ok? && !value.Null? ==> Lookup(r.value.arguments.value, key) == Some(value)
    ensures r.Ok? ==> forall k :: k != key ==>
      Lookup(r.value.arguments.value, k) == Lookup(Arguments(c, parse).value.0, k)
  {
    match Arguments(c, parse)
    case Err(e) => Err(e)
    case Ok((es, c1)) =>
      var es1 := if value.Null? then Remove(es, key) else Assign(es, key, value);
      Ok(c1.(arguments := Some(es1)))
  }

  /** The value of the first entry for `key`. */
  function Lookup(es: Entries, key: string): (r: Option<Value>)
    ensures r.Some? <==> HasKey(es, key)
  {
    if es == [] then None
    else if es[0].key == key then Some(es[0].value)
    else
      var r := Lookup(es[1..], key);
      assert HasKey(es, key) <==> HasKey(es[1..], key) by {
        if HasKey(es[1..], key) {
          var i :| 0 <= i < |es[1..]| && es[1..][i].key == key;
          assert es[i + 1].key == key;
        }
        if HasKey(es, key) {
          var i :| 0 <= i < |es| && es[i].key == key;
          assert es[1..][i - 1].key == key;
        }
      }
      r
  }

  function Remove(es: Entries, key: string): (r: Entries)
    ensures !HasKey(r, key)
    ensures forall k :: k != key ==> Lookup(r, k) == Lookup(es, k)
  {
    if es == [] then []
    else if es[0].key == key then Remove(es[1..], key)
    else [es[0]] + Remove(es[1..], key)
  }

  function Assign(es: Entries, key: string, value: Value): (r: Entries)
    ensures Lookup(r, key) == Some(value)
    ensures forall k :: k != key ==> Lookup(r, k) == Lookup(es, k)
  {
    [Entry(key, value)] + Remove(es, key)
  }

  /** `InternalDataCall.getStringedArguments`, with `render` for
      `toString()`: nothing unless the data text starts with `{`, else
      every argument with its value as text (`null` kept as `None`). */
  function StringedArguments(c: Call, parse: Parser, render: Value -> Bytes)
    : (r: Result<(seq<(string, Option<Bytes>)>, Call), CallError>)
    requires Valid(c) && c.variant == InternalDataCall
    ensures !StartsWithBrace(JsonText(c)) ==> r == Ok(([], c))
    ensures StartsWithBrace(JsonText(c)) && Arguments(c, parse).Err? ==> r == Err(Arguments(c, parse).error)
    ensures StartsWithBrace(JsonText(c)) && r.Ok? ==>
      var es := Arguments(c, parse).value.0;
      && |r.value.0| == |es|
      && forall i :: 0 <= i < |es| ==>
           r.value.0[i].0 == es[i].key
           && (r.value.0[i].1.None? <==> es[i].value.Null?)
           && (!es[i].value.Null? ==> r.value.0[i].1 == Some(render(es[i].value)))
  {
    if !StartsWithBrace(JsonText(c)) then Ok(([], c))
    else
      match Arguments(c, parse)
      case Err(e) => Err(e)
      case Ok((es, c1)) => Ok((Stringify(es, render), c1))
  }

  /** `text.startsWith("{")` on the UTF-8 text: its first byte is `{`. */
  predicate StartsWithBrace(text: Bytes) {
    |text| > 0 && text[0] == LEFT_BRACE
  }

  function Stringify(es: Entries, render: Value -> Bytes): (r: seq<(string, Option<Bytes>)>)
    ensures |r| == |es|
    ensures forall i :: 0 <= i < |es| ==>
      r[i] == (es[i].key, if es[i].value.Null? then None else Some(render(es[i].value)))
  {
    if es == [] then []
    else [(es[0].key, if es[0].value.Null? then None else Some(render(es[0].value)))] + Stringify(es[1..], render)
  }

  // ---------------------------------------------------------------------
  // Request and context.

  /** `attachTo(request)`: `null` is refused, anything else replaces the
      request held so far. */
  function AttachTo(c: Call, r: Option<nat>): (res: Result<Call, CallError>)
    ensures r.None? ==> res == Err(NullRequest)
    ensures r.Some? ==> res.Ok? && GetHttpRequest(res.value) == r
    ensures r.Some? ==> res.value.(request := c.request) == c
  {
    if r.None? then Err(NullRequest) else Ok(c.(request := r))
  }

  function GetHttpRequest(c: Call): Option<nat> {
    c.request
  }

  /** The last request attached is the one the call reports. */
  lemma AttachLastWins(c: Call, a: nat, b: nat)
    ensures AttachTo(AttachTo(c, Some(a)).value, Some(b)) == AttachTo(c, Some(b))
  {
  }

  /** `context()`: created empty on first use, then the same map. */
  function Context(c: Call): (r: (map<nat, nat>, Call))
    ensures c.context.None? ==> r.0 == map[]
    ensures r.1.context == Some(r.0)
    ensures r.1 == c.(context := r.1.context)
  {
    if c.context.None? then (map[], c.(context := Some(map[]))) else (c.context.value, c)
  }

  lemma {:induction false} ContextOnce(c: Call)
    ensures Context(Context(c).1) == Context(c)
  {
  }
}
