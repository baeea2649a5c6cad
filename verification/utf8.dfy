/** Java's `String.getBytes(UTF_8)` and `String.length()` for the strings
    the clients put on the wire. Dafny characters are Unicode scalar
    values, so every string here is well formed. */
module Utf8 {

  import opened Bytes

  /** The UTF-8 encoding of one code point. */
  function EncodeChar(c: char): (r: Bytes)
    ensures 1 <= |r| <= 4
    ensures c as int < 128 ==> r == [c as int as Byte]
    ensures c as int >= 128 ==> forall i :: 0 <= i < |r| ==> r[i] >= 128
    ensures forall i :: 0 <= i < |r| ==> r[i] != 255
  {
    var cp := c as int;
    if cp < 0x80 then [cp as Byte]
    else if cp < 0x800 then [(0xC0 + cp / 64) as Byte, (0x80 + cp % 64) as Byte]
    else if cp < 0x1_0000 then
      [(0xE0 + cp / 4096) as Byte, (0x80 + (cp / 64) % 64) as Byte, (0x80 + cp % 64) as Byte]
    else
      [(0xF0 + cp / 262144) as Byte, (0x80 + (cp / 4096) % 64) as Byte,
       (0x80 + (cp / 64) % 64) as Byte, (0x80 + cp % 64) as Byte]
  }

  function Encode(s: string): Bytes {
    if s == [] then [] else EncodeChar(s[0]) + Encode(s[1..])
  }

  /** `String.length()`: UTF-16 code units, two for a supplementary
      character. */
  function Utf16Length(s: string): nat {
    if s == [] then 0 else (if s[0] as int >= 0x1_0000 then 2 else 1) + Utf16Length(s[1..])
  }

  lemma {:induction false} EncodeAppend(a: string, b: string)
    ensures Encode(a + b) == Encode(a) + Encode(b)
  {
    if a == [] {
      assert a + b == b;
    } else {
      assert (a + b)[0] == a[0];
      assert (a + b)[1..] == a[1..] + b;
      EncodeAppend(a[1..], b);
    }
  }

  /** An ASCII string encodes to one byte per character. */
  lemma {:induction false} EncodeAscii(s: string)
    requires IsAsciiString(s)
    ensures Encode(s) == Ascii(s)
    ensures Utf16Length(s) == |s|
  {
    if s != [] {
      EncodeAscii(s[1..]);
    }
  }

  /** An ASCII byte occurs in the encoding exactly where the character
      occurs in the string, so a string without `/` encodes to bytes
      without `/`. */
  lemma {:induction false} EncodeExcludes(s: string, c: char)
    requires c as int < 128
    requires forall i :: 0 <= i < |s| ==> s[i] != c
    ensures Excludes(Encode(s), c as int as Byte)
  {
    if s != [] {
      EncodeExcludes(s[1..], c);
      var head := EncodeChar(s[0]);
      assert Excludes(head, c as int as Byte);
    }
  }

  /** UTF-8 never produces the byte 0xFF. */
  lemma {:induction false} EncodeNoFF(s: string)
    ensures Excludes(Encode(s), 255)
  {
    if s != [] {
      EncodeNoFF(s[1..]);
    }
  }

  /** The characters of ASCII bytes: how the digits of a number appear in a
      formatted Java string. */
  function Text(b: Bytes): (r: string)
    requires forall i :: 0 <= i < |b| ==> b[i] < 128
    ensures |r| == |b|
    ensures forall i :: 0 <= i < |b| ==> r[i] as int == b[i] as int
  {
    if b == [] then [] else [b[0] as int as char] + Text(b[1..])
  }

  /** Encoding the text of ASCII bytes gives the bytes back. */
  lemma {:induction false} EncodeText(b: Bytes)
    requires forall i :: 0 <= i < |b| ==> b[i] < 128
    ensures Encode(Text(b)) == b
  {
    if b != [] {
      EncodeText(b[1..]);
      assert Text(b)[1..] == Text(b[1..]);
    }
  }

  /** A string is never longer in UTF-16 units than in UTF-8 bytes, and is
      as long exactly when it is ASCII. */
  lemma {:induction false} Utf16Shorter(s: string)
    ensures Utf16Length(s) <= |Encode(s)|
    ensures Utf16Length(s) == |Encode(s)| <==> IsAsciiString(s)
  {
    if s != [] {
      Utf16Shorter(s[1..]);
      if IsAsciiString(s) {
        assert IsAsciiString(s[1..]) by {
          forall i | 0 <= i < |s[1..]| ensures s[1..][i] as int < 128 {
            assert s[1..][i] == s[i + 1];
          }
        }
      } else if s[0] as int < 128 {
        assert !IsAsciiString(s[1..]) by {
          var j :| 0 <= j < |s| && s[j] as int >= 128;
          assert s[1..][j - 1] == s[j];
        }
      }
    }
  }
}
