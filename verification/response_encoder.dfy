/** The server's two response encoders. Both frame a content as
    `<mime>://(<contentLength>)?<content>`; they differ in where the mime
    text and the length come from. */
module ResponseEncoder {

  import opened Bytes
  import Ascii = Bytes
  import Decimal
  import Utf8

  /** A command's result: its mime type's `getName()` and `toString()`, its
      bytes (`getBytes()`, also what `write` copies out) and the length it
      declares (`getLength()`, a Java `long`). */
  datatype Content = Content(mimeName: string, mimeText: string, bytes: Bytes, declaredLength: int)

  /** What reaches an encoder: a content, or any other message. */
  datatype Message = ContentMessage(content: Content) | OtherMessage(tag: nat)

  /** An encoder's result: the frame, the message passed on, or the
      `IllegalArgumentException` of a buffer asked for a negative size. */
  datatype Encoded = Buffer(bytes: Bytes) | Unchanged(message: Message) | NegativeCapacity(estimate: int)

  /** `<mime>://(<lengthText>)?<content>`. */
  function ResponseWire(mime: Bytes, lengthText: Bytes, content: Bytes): Bytes {
    mime + [Ascii.COLON, SLASH, SLASH, LEFT_PAREN] + lengthText + [RIGHT_PAREN, QUESTION] + content
  }

  /** The response header the content encoder allocates exactly: mime,
      `://(`, length digits and `)?`. */
  function ContentHeader(c: Content): (r: Bytes)
    ensures |r| == |Utf8.Encode(c.mimeName)| + 4 + |Decimal.Render(|c.bytes|)| + 2
  {
    Utf8.Encode(c.mimeName) + [Ascii.COLON, SLASH, SLASH, LEFT_PAREN] + Decimal.Render(|c.bytes|)
      + [RIGHT_PAREN, QUESTION]
  }

  /** `LegacyContentEncoder.encode`: the header from the mime type's name
      and the byte count of the content, followed by the content bytes. */
  function EncodeContent(m: Message): (r: Encoded)
    ensures m.OtherMessage? ==> r == Unchanged(m)
    ensures m.ContentMessage? ==>
      var c := m.content;
      && r.Buffer?
      && r.bytes == ResponseWire(Utf8.Encode(c.mimeName), Decimal.Render(|c.bytes|), c.bytes)
      && r.bytes[|ContentHeader(c)|..] == c.bytes
  {
    match m
    case OtherMessage(_) => Unchanged(m)
    case ContentMessage(c) =>
      var out := ContentHeader(c) + c.bytes;
      assert out[|ContentHeader(c)|..] == c.bytes;
      Buffer(out)
  }

  /** `LegacyEncoder.encode`: the header from the mime type's `toString()`
      and the declared length narrowed to `int`, followed by what the
      content writes. The formatted header is UTF-8 encoded as a whole; its
      literal parts are ASCII. The buffer is sized by the `int` sum of the
      header's size and the declared length, and a negative size (a
      negative declared length, or a sum past `Integer.MAX_VALUE`) throws. */
  function EncodeLegacy(m: Message): (r: Encoded)
    ensures m.OtherMessage? ==> r == Unchanged(m)
    ensures m.ContentMessage? ==>
      var c := m.content;
      var length := Decimal.ToInt32(c.declaredLength);
      var header := ResponseWire(Utf8.Encode(c.mimeText), Decimal.Render(length), []);
      var estimate := Decimal.ToInt32(|header| + length);
      && (estimate < 0 ==> r == NegativeCapacity(estimate))
      && (estimate >= 0 ==> r == Buffer(header + c.bytes))
    ensures m.ContentMessage? && r.Buffer? ==>
      var c := m.content;
      r.bytes == ResponseWire(Utf8.Encode(c.mimeText), Decimal.Render(Decimal.ToInt32(c.declaredLength)), c.bytes)
  {
    match m
    case OtherMessage(_) => Unchanged(m)
    case ContentMessage(c) =>
      var length := Decimal.ToInt32(c.declaredLength);
      var header := Utf8.Encode(c.mimeText) + [Ascii.COLON, SLASH, SLASH, LEFT_PAREN]
        + Decimal.Render(length) + [RIGHT_PAREN, QUESTION];
      var estimate := Decimal.ToInt32(|header| + length);
      if estimate < 0 then NegativeCapacity(estimate)
      else Buffer(header + c.bytes)
  }

  /** The two encoders agree on a content whose mime `toString()` is its
      name and whose declared length is its byte count. */
  lemma EncodersAgree(c: Content)
    requires c.mimeText == c.mimeName && c.declaredLength == |c.bytes|
    requires |c.bytes| <= Decimal.MAX_INT && EncodeLegacy(ContentMessage(c)).Buffer?
    ensures EncodeLegacy(ContentMessage(c)) == EncodeContent(ContentMessage(c))
  {
  }
}
