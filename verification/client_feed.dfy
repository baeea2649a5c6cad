/** The client decoder's decode loop over a cumulation buffer. */
module ClientFeed {

  import opened Bytes
  import opened Frames
  import opened ResponseEncoder
  import opened ClientDecoder

  datatype FeedState =
    | Waiting(decoder: Decoder, at: nat)
    | Broken(error: ClientError)

  datatype FeedResult = FeedResult(headers: seq<ClientHeader>, state: FeedState)

  /** The replaying decoder's `callDecode` loop: decode while bytes remain
      after the reader index, restart from `MIME_TYPE` after every response,
      and stop at the first replay or exception. */
  function Feed(d: Decoder, buf: Bytes, pos: nat): (r: FeedResult)
    requires pos <= |buf| && Consistent(d)
    ensures r.state.Waiting? ==> pos <= r.state.at <= |buf| && Consistent(r.state.decoder)
    decreases |buf| - pos, if d.part == MIME_TYPE then 0 else 1
  {
    if pos == |buf| then FeedResult([], Waiting(d, pos))
    else
      match Run(d, buf, pos)
      case NeedMore(c, at) => FeedResult([], Waiting(c, at))
      case Failed(e) => FeedResult([], Broken(e))
      case Decoded(h, at) =>
        RunConsumes(d, buf, pos);
        var rest := Feed(Initial, buf, at);
        FeedResult([h] + rest.headers, rest.state)
  }

  /** A call that passes a delimiter before emitting has consumed a byte. */
  lemma {:induction false} RunConsumes(d: Decoder, buf: Bytes, pos: nat)
    requires pos <= |buf| && Consistent(d)
    ensures Run(d, buf, pos).Decoded? && d.part != CONTENT ==> pos < Run(d, buf, pos).at
    decreases 8 - Ordinal(d.part)
  {
    match Stage(d, buf, pos)
    case Advance(next, at) =>
      RunConsumes(next, buf, at);
      if next.part == CONTENT {
        assert d.part == QUESTION_MARK;
      }
    case _ =>
  }

  // ---------------------------------------------------------------------
  // Consecutive responses.

  /** The fields of one response as the server writes them. */
  datatype Response = Response(mime: Bytes, lengthText: Bytes, content: Bytes)

  function Wire(r: Response): Bytes {
    ResponseWire(r.mime, r.lengthText, r.content)
  }

  predicate Readable(r: Response) {
    ReadableResponse(r.mime, r.lengthText, r.content)
  }

  function Wires(rs: seq<Response>): Bytes {
    if rs == [] then [] else Wire(rs[0]) + Wires(rs[1..])
  }

  /** What a decoded response carries: its mime text and its content. */
  function Payload(h: ClientHeader): (Bytes, Bytes) {
    (h.mimeType, Data(h.content))
  }

  function Payloads(hs: seq<ClientHeader>): seq<(Bytes, Bytes)> {
    if hs == [] then [] else [Payload(hs[0])] + Payloads(hs[1..])
  }

  /** What the client should read from each response. */
  function Expected(rs: seq<Response>): seq<(Bytes, Bytes)> {
    if rs == [] then [] else [(rs[0].mime, rs[0].content)] + Expected(rs[1..])
  }

  /** Responses sent back to back decode independently: feeding their
      concatenation yields their mime texts and contents in order, and the
      decoder ends reset to `MIME_TYPE` exactly at the end of the last one. */
  lemma {:induction false} FeedResponses(buf: Bytes, pos: nat, rs: seq<Response>)
    requires forall i :: 0 <= i < |rs| ==> Readable(rs[i])
    requires pos + |Wires(rs)| == |buf| && buf[pos..] == Wires(rs)
    ensures Payloads(Feed(Initial, buf, pos).headers) == Expected(rs)
    ensures Feed(Initial, buf, pos).state == Waiting(Initial, |buf|)
    decreases |rs|
  {
    if rs != [] {
      var at := pos + |Wire(rs[0])|;
      FirstResponse(buf, pos, rs);
      FeedResponses(buf, at, rs[1..]);
      assert Expected(rs) == [(rs[0].mime, rs[0].content)] + Expected(rs[1..]);
      FeedPayload(buf, pos, (rs[0].mime, rs[0].content), Expected(rs[1..]));
    }
  }

  /** `Feed` from a decodable position: that payload, then what follows. */
  lemma {:induction false} FeedPayload(buf: Bytes, pos: nat, p: (Bytes, Bytes), ps: seq<(Bytes, Bytes)>)
    requires pos < |buf|
    requires Run(Initial, buf, pos).Decoded?
    requires Payload(Run(Initial, buf, pos).header) == p
    requires Payloads(Feed(Initial, buf, Run(Initial, buf, pos).at).headers) == ps
    ensures Payloads(Feed(Initial, buf, pos).headers) == [p] + ps
    ensures Feed(Initial, buf, pos).state == Feed(Initial, buf, Run(Initial, buf, pos).at).state
  {
    var r := Run(Initial, buf, pos);
    FeedDecoded(buf, pos);
    PayloadsCons(r.header, Feed(Initial, buf, r.at).headers);
  }

  /** The first of several responses decodes to its payload, and the rest
      follow it. */
  lemma {:induction false} FirstResponse(buf: Bytes, pos: nat, rs: seq<Response>)
    requires rs != []
    requires forall i :: 0 <= i < |rs| ==> Readable(rs[i])
    requires pos + |Wires(rs)| == |buf| && buf[pos..] == Wires(rs)
    ensures var at := pos + |Wire(rs[0])|;
      && pos < at
      && Run(Initial, buf, pos).Decoded?
      && Run(Initial, buf, pos).at == at
      && Payload(Run(Initial, buf, pos).header) == (rs[0].mime, rs[0].content)
      && at + |Wires(rs[1..])| == |buf| && buf[at..] == Wires(rs[1..])
      && forall i :: 0 <= i < |rs[1..]| ==> Readable(rs[1..][i])
  {
    var r := rs[0];
    WiresCons(buf, pos, rs);
    assert Readable(r);
    RoundTrip(buf, pos, r.mime, r.lengthText, r.content);
    forall i | 0 <= i < |rs[1..]| ensures Readable(rs[1..][i]) {
      assert rs[1..][i] == rs[i + 1];
    }
  }

  lemma {:induction false} WiresCons(buf: Bytes, pos: nat, rs: seq<Response>)
    requires rs != []
    requires pos + |Wires(rs)| == |buf| && buf[pos..] == Wires(rs)
    ensures var at := pos + |Wire(rs[0])|;
      && At(buf, pos, Wire(rs[0]))
      && at + |Wires(rs[1..])| == |buf| && buf[at..] == Wires(rs[1..])
  {
    var w := Wire(rs[0]);
    var at := pos + |w|;
    assert Wires(rs) == w + Wires(rs[1..]);
    forall i | 0 <= i < |w|
      ensures buf[pos + i] == w[i]
    {
      assert buf[pos..][i] == Wires(rs)[i];
    }
    assert buf[at..] == buf[pos..][|w|..];
  }

  /** `Feed` past one decoded response. */
  lemma {:induction false} FeedDecoded(buf: Bytes, pos: nat)
    requires pos < |buf|
    requires Run(Initial, buf, pos).Decoded?
    ensures var r := Run(Initial, buf, pos);
      Feed(Initial, buf, pos) == FeedResult([r.header] + Feed(Initial, buf, r.at).headers,
                                            Feed(Initial, buf, r.at).state)
  {
  }

  lemma {:induction false} PayloadsCons(h: ClientHeader, hs: seq<ClientHeader>)
    ensures Payloads([h] + hs) == [Payload(h)] + Payloads(hs)
  {
    assert ([h] + hs)[1..] == hs;
  }
}
