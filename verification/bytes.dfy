/** Bytes, the ASCII delimiters of the legacy wire protocol, and the small
    scanning helpers the decoders share. */
module Bytes {

  import opened Wrappers

  newtype Byte = b: int | 0 <= b < 256

  type Bytes = seq<Byte>

  const COLON: Byte := 58
  const SLASH: Byte := 47
  const LEFT_PAREN: Byte := 40
  const RIGHT_PAREN: Byte := 41
  const QUESTION: Byte := 63
  const LEFT_BRACE: Byte := 123
  const LEFT_BRACKET: Byte := 91
  const MINUS: Byte := 45
  const PLUS: Byte := 43
  const ZERO: Byte := 48

  predicate IsAsciiString(s: string) {
    forall i :: 0 <= i < |s| ==> s[i] as int < 128
  }

  /** The bytes of an ASCII literal (its UTF-8 encoding). */
  function Ascii(s: string): (r: Bytes)
    requires IsAsciiString(s)
    ensures |r| == |s|
    ensures forall i :: 0 <= i < |s| ==> r[i] as int == s[i] as int
  {
    if s == [] then [] else [s[0] as int as Byte] + Ascii(s[1..])
  }

  predicate IsDigit(b: Byte) {
    48 <= b <= 57
  }

  predicate IsAsciiUpper(b: Byte) {
    65 <= b <= 90
  }

  predicate IsAsciiLower(b: Byte) {
    97 <= b <= 122
  }

  /** `String.toUpperCase` restricted to ASCII letters. */
  function ToUpper(s: Bytes): (r: Bytes)
    ensures |r| == |s|
    ensures forall i :: 0 <= i < |s| ==>
      r[i] == (if IsAsciiLower(s[i]) then s[i] - 32 else s[i])
  {
    if s == [] then []
    else [if IsAsciiLower(s[0]) then s[0] - 32 else s[0]] + ToUpper(s[1..])
  }

  /** `String.toLowerCase` restricted to ASCII letters. */
  function ToLower(s: Bytes): (r: Bytes)
    ensures |r| == |s|
    ensures forall i :: 0 <= i < |s| ==>
      r[i] == (if IsAsciiUpper(s[i]) then s[i] + 32 else s[i])
  {
    if s == [] then []
    else [if IsAsciiUpper(s[0]) then s[0] + 32 else s[0]] + ToLower(s[1..])
  }

  /** Lower-casing upper-case letters is undone by upper-casing. */
  lemma UpperOfLower(s: Bytes)
    requires forall i :: 0 <= i < |s| ==> IsAsciiUpper(s[i])
    ensures forall i :: 0 <= i < |s| ==> IsAsciiLower(ToLower(s)[i])
    ensures ToUpper(ToLower(s)) == s
  {
    var l := ToLower(s);
    assert forall i :: 0 <= i < |s| ==> l[i] == s[i] + 32;
    var u := ToUpper(l);
    assert forall i :: 0 <= i < |s| ==> u[i] == s[i];
  }

  predicate Excludes(s: Bytes, c: Byte) {
    forall i :: 0 <= i < |s| ==> s[i] != c
  }

  /** The index of the first `c` at or after `from`: the scan of the
      decoders' `readUntil`. */
  function IndexOf(buf: Bytes, from: nat, c: Byte): (r: Option<nat>)
    requires from <= |buf|
    ensures r.Some? ==> from <= r.value < |buf| && buf[r.value] == c
                        && Excludes(buf[from..r.value], c)
    ensures r.None? ==> Excludes(buf[from..], c)
    decreases |buf| - from
  {
    if from == |buf| then None
    else if buf[from] == c then Some(from)
    else IndexOf(buf, from + 1, c)
  }

  /** Scanning a buffer whose bytes from `from` are `x + [c] + rest`, with
      no `c` inside `x`, stops at the end of `x`. */
  lemma {:induction false} IndexOfFinds(buf: Bytes, from: nat, x: Bytes, c: Byte)
    requires from + |x| < |buf|
    requires buf[from..from + |x|] == x && buf[from + |x|] == c
    requires Excludes(x, c)
    ensures IndexOf(buf, from, c) == Some(from + |x|)
    decreases |x|
  {
    if x != [] {
      assert buf[from] == x[0];
      assert buf[from + 1..from + 1 + |x[1..]|] == x[1..];
      IndexOfFinds(buf, from + 1, x[1..], c);
    }
  }

  /** The scan only looks at bytes up to the delimiter it finds, so
      appending bytes never changes a successful scan. */
  lemma {:induction false} IndexOfExtend(buf: Bytes, from: nat, c: Byte, e: Bytes)
    requires from <= |buf|
    requires IndexOf(buf, from, c).Some?
    ensures IndexOf(buf + e, from, c) == IndexOf(buf, from, c)
    decreases |buf| - from
  {
    assert (buf + e)[from] == buf[from];
    if buf[from] != c {
      IndexOfExtend(buf, from + 1, c, e);
    }
  }

  predicate StartsWith(s: Bytes, prefix: Bytes) {
    |prefix| <= |s| && s[..|prefix|] == prefix
  }

  /** The bytes `w` sit in `buf` at `pos`. */
  predicate At(buf: Bytes, pos: nat, w: Bytes) {
    && pos + |w| <= |buf|
    && forall i :: 0 <= i < |w| ==> buf[pos + i] == w[i]
  }

  lemma AtSlice(buf: Bytes, pos: nat, w: Bytes, i: nat, j: nat)
    requires At(buf, pos, w) && i <= j <= |w|
    ensures buf[pos + i..pos + j] == w[i..j]
  {
    forall k | 0 <= k < j - i
      ensures buf[pos + i..pos + j][k] == w[i..j][k]
    {
      assert buf[pos + (i + k)] == w[i + k];
    }
  }

  lemma AtByte(buf: Bytes, pos: nat, w: Bytes, i: nat)
    requires At(buf, pos, w) && i < |w|
    ensures buf[pos + i] == w[i]
  {
  }
}
