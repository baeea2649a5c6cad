/** The request frame of the legacy protocol and the call types it names. */
module Frames {

  import opened Wrappers
  import opened Bytes

  /** The six call types; `valueOf` matches their upper-case names. */
  datatype CallType = OPEN | DATA | JSON | TEXT | BINARY | CLOSE

  /** The enum constant's `name()`, as ASCII bytes. */
  function Name(t: CallType): Bytes {
    match t
    case OPEN => [79, 80, 69, 78]
    case DATA => [68, 65, 84, 65]
    case JSON => [74, 83, 79, 78]
    case TEXT => [84, 69, 88, 84]
    case BINARY => [66, 73, 78, 65, 82, 89]
    case CLOSE => [67, 76, 79, 83, 69]
  }

  /** `CallType.valueOf(s)`: the constant whose name is exactly `s`, or
      `None` where Java throws `IllegalArgumentException`. */
  function ValueOf(s: Bytes): (r: Option<CallType>)
    ensures r.Some? ==> Name(r.value) == s
    ensures r.None? ==> forall t :: Name(t) != s
  {
    if s == Name(OPEN) then Some(OPEN)
    else if s == Name(DATA) then Some(DATA)
    else if s == Name(JSON) then Some(JSON)
    else if s == Name(TEXT) then Some(TEXT)
    else if s == Name(BINARY) then Some(BINARY)
    else if s == Name(CLOSE) then Some(CLOSE)
    else None
  }

  /** Names are distinct, so `valueOf` inverts `name()`. */
  lemma ValueOfName(t: CallType)
    ensures ValueOf(Name(t)) == Some(t)
  {
    assert Name(OPEN)[0] == 79 && Name(DATA)[0] == 68 && Name(JSON)[0] == 74;
    assert Name(TEXT)[0] == 84 && Name(BINARY)[0] == 66 && Name(CLOSE)[0] == 67;
  }

  /** A slice `array[offset..offset + size]` of a backing array: what
      `ChannelBuffer.toByteBuffer(index, length)` hands out. */
  datatype RawView = View(backing: Bytes, offset: nat, size: nat)

  type View = v: RawView | v.offset + v.size <= |v.backing| witness View([], 0, 0)

  /** The bytes a view covers (its `remaining()` bytes). */
  function Data(v: View): (r: Bytes)
    ensures |r| == v.size
    ensures forall i :: 0 <= i < v.size ==> r[i] == v.backing[v.offset + i]
  {
    v.backing[v.offset..v.offset + v.size]
  }

  /** The header a frame decoder emits (the source's `Header`). */
  datatype Header = Header(
    callType: CallType,
    aliasedName: Bytes,
    sessionId: Bytes,
    contentLength: int,
    content: View)

  /** What a header says, independent of the buffer its content lives in. */
  datatype Frame = Frame(
    callType: CallType,
    aliasedName: Bytes,
    sessionId: Bytes,
    contentLength: int,
    content: Bytes)

  function Logical(h: Header): Frame {
    Frame(h.callType, h.aliasedName, h.sessionId, h.contentLength, Data(h.content))
  }

  function Logicals(hs: seq<Header>): (r: seq<Frame>)
    ensures |r| == |hs|
    ensures forall i :: 0 <= i < |hs| ==> r[i] == Logical(hs[i])
  {
    if hs == [] then [] else [Logical(hs[0])] + Logicals(hs[1..])
  }

  /** Headers with the same logical content, prefixed to sequences of the
      same logical content, still agree. */
  lemma LogicalsCons(h: Header, h': Header, xs: seq<Header>, ys: seq<Header>, zs: seq<Header>)
    requires Logical(h) == Logical(h')
    requires Logicals(xs + ys) == Logicals(zs)
    ensures Logicals([h] + xs + ys) == Logicals([h'] + zs)
  {
    assert [h] + xs + ys == [h] + (xs + ys);
    LogicalsAppend([h], xs + ys);
    LogicalsAppend([h'], zs);
  }

  lemma {:induction false} LogicalsAppend(a: seq<Header>, b: seq<Header>)
    ensures Logicals(a + b) == Logicals(a) + Logicals(b)
  {
    assert Logicals(a + b) == Logicals(a) + Logicals(b);
  }
}
