/** Java's decimal conversions of `int`: `Integer.toString` (the length
    fields every encoder writes) and `Integer.parseInt` (the length fields
    every decoder reads), over ASCII bytes. */
module Decimal {

  import opened Wrappers
  import opened Bytes

  const MAX_INT: int := 0x7fff_ffff
  const MIN_INT: int := -0x8000_0000

  predicate InInt32(n: int) {
    MIN_INT <= n <= MAX_INT
  }

  /** The narrowing cast `(int) x` of a Java `long`: keep the low 32 bits as
      a two's-complement value. */
  function ToInt32(x: int): (r: int)
    ensures InInt32(r)
    ensures (r - x) % 0x1_0000_0000 == 0
    ensures InInt32(x) ==> r == x
  {
    var low := x % 0x1_0000_0000;
    if low <= MAX_INT then low else low - 0x1_0000_0000
  }

  predicate AllDigits(s: Bytes) {
    forall i :: 0 <= i < |s| ==> IsDigit(s[i])
  }

  function DigitByte(d: nat): (b: Byte)
    requires d < 10
    ensures IsDigit(b)
  {
    (48 + d) as Byte
  }

  /** The digits of `n`, most significant first, without leading zeros. */
  function RenderNat(n: nat): (r: Bytes)
    ensures |r| >= 1
    ensures AllDigits(r)
    ensures |r| > 1 ==> r[0] != ZERO
    ensures r[0] == ZERO <==> n == 0
    decreases n
  {
    if n < 10 then [DigitByte(n)] else RenderNat(n / 10) + [DigitByte(n % 10)]
  }

  /** `Integer.toString(n)`. */
  function Render(n: int): (r: Bytes)
    ensures |r| >= 1
    ensures n >= 0 ==> AllDigits(r)
    ensures n < 0 ==> r[0] == MINUS && AllDigits(r[1..])
    ensures forall i :: 0 <= i < |r| ==> IsDigit(r[i]) || (i == 0 && r[i] == MINUS)
    ensures n >= 0 && |r| > 1 ==> r[0] != ZERO
    ensures n < 0 ==> |r| >= 2 && r[1] != ZERO
  {
    if n < 0 then [MINUS] + RenderNat(-n) else RenderNat(n)
  }

  /** The value of a run of decimal digits, read left to right. */
  function DigitsValue(s: Bytes): nat
    requires AllDigits(s)
  {
    if s == [] then 0 else DigitsValue(s[..|s| - 1]) * 10 + (s[|s| - 1] - ZERO) as int
  }

  /** `Integer.parseInt(s)`: an optional sign, then at least one digit, and
      a value inside the `int` range; anything else is a
      `NumberFormatException`, here `None`. */
  function ParseInt(s: Bytes): (r: Option<int>)
    ensures r.Some? ==> InInt32(r.value)
    ensures r.Some? ==> |s| >= 1
    ensures r.Some? && s[0] != MINUS && s[0] != PLUS ==> AllDigits(s) && r.value == DigitsValue(s)
    ensures r.Some? && (s[0] == MINUS || s[0] == PLUS) ==>
      && |s| >= 2 && AllDigits(s[1..])
      && r.value == (if s[0] == MINUS then -(DigitsValue(s[1..]) as int) else DigitsValue(s[1..]))
  {
    if |s| == 0 then None
    else
      var signed := s[0] == MINUS || s[0] == PLUS;
      var digits := if signed then s[1..] else s;
      if |digits| == 0 || !AllDigits(digits) then None
      else
        var v: int := if s[0] == MINUS then -(DigitsValue(digits) as int) else DigitsValue(digits);
        if InInt32(v) then Some(v) else None
  }

  lemma {:induction false} DigitsValueOfRender(n: nat)
    ensures DigitsValue(RenderNat(n)) == n
    decreases n
  {
    if n >= 10 {
      var r := RenderNat(n);
      assert r[..|r| - 1] == RenderNat(n / 10);
      DigitsValueOfRender(n / 10);
    }
  }

  /** Parsing what `Integer.toString` wrote gives the number back: the
      length field round-trips through every codec of the protocol. */
  lemma ParseRender(n: int)
    requires InInt32(n)
    ensures ParseInt(Render(n)) == Some(n)
  {
    if n < 0 {
      DigitsValueOfRender(-n);
      ParseNegative(RenderNat(-n));
    } else {
      DigitsValueOfRender(n);
      ParseDigits(RenderNat(n));
    }
  }

  lemma ParseDigits(s: Bytes)
    requires |s| >= 1 && AllDigits(s) && DigitsValue(s) <= MAX_INT
    ensures ParseInt(s) == Some(DigitsValue(s))
  {
    assert IsDigit(s[0]);
  }

  lemma ParseNegative(s: Bytes)
    requires |s| >= 1 && AllDigits(s) && DigitsValue(s) <= -MIN_INT
    ensures ParseInt([MINUS] + s) == Some(-(DigitsValue(s) as int))
  {
    assert ([MINUS] + s)[1..] == s;
  }

  /** The acceptance direction: an optional sign followed by at least one
      digit parses whenever its value lies in the `int` range, `+` and `-`
      alike. */
  lemma ParseAccepts(sign: Option<Byte>, digits: Bytes)
    requires sign == None || sign == Some(MINUS) || sign == Some(PLUS)
    requires |digits| >= 1 && AllDigits(digits)
    requires InInt32(if sign == Some(MINUS) then -(DigitsValue(digits) as int) else DigitsValue(digits))
    ensures var s := if sign.Some? then [sign.value] + digits else digits;
      ParseInt(s) == Some(if sign == Some(MINUS) then -(DigitsValue(digits) as int) else DigitsValue(digits))
  {
    if sign == Some(MINUS) {
      ParseNegative(digits);
    } else if sign == Some(PLUS) {
      ParsePlus(digits);
    } else {
      ParseDigits(digits);
    }
  }

  lemma ParsePlus(s: Bytes)
    requires |s| >= 1 && AllDigits(s) && DigitsValue(s) <= MAX_INT
    ensures ParseInt([PLUS] + s) == Some(DigitsValue(s))
  {
    assert ([PLUS] + s)[1..] == s;
  }

  /** Only sign and digit bytes can be part of a parsed number, so a
      length field never swallows the delimiter that ends it. */
  lemma ParseIntBytes(s: Bytes, c: Byte)
    requires ParseInt(s).Some?
    requires !IsDigit(c) && c != MINUS && c != PLUS
    ensures Excludes(s, c)
  {
  }
}
