/** Character-level helpers that the JDK provides to the calculators: ASCII decimal digits,
    the decimal rendering of naturals, `Character.isWhitespace` / `String.isBlank`,
    `String.length()` (UTF-16 code units) and `Integer.parseInt` / `Long.parseLong`. */
module Text {

  import opened Optional

  const INT_MIN: int := -0x8000_0000
  const INT_MAX: int := 0x7fff_ffff
  const LONG_MIN: int := -0x8000_0000_0000_0000
  const LONG_MAX: int := 0x7fff_ffff_ffff_ffff

  predicate IsDigit(c: char) {
    '0' <= c <= '9'
  }

  predicate AllDigits(s: string) {
    forall i :: 0 <= i < |s| ==> IsDigit(s[i])
  }

  function DigitValue(c: char): (d: nat)
    requires IsDigit(c)
    ensures d < 10
  {
    c as int - '0' as int
  }

  function DigitChar(d: nat): (c: char)
    requires d < 10
    ensures IsDigit(c) && DigitValue(c) == d
  {
    (d + '0' as int) as char
  }

  function Pow10(n: nat): (p: nat)
    ensures p >= 1
  {
    if n == 0 then 1 else 10 * Pow10(n - 1)
  }

  lemma {:induction false} Pow10Add(a: nat, b: nat)
    ensures Pow10(a + b) == Pow10(a) * Pow10(b)
  {
    if b > 0 {
      Pow10Add(a, b - 1);
      assert Pow10(a + b) == 10 * Pow10(a + b - 1);
    }
  }

  /** The value of a string of ASCII digits, most significant digit first. */
  function DigitsValue(s: string): nat
    requires AllDigits(s)
  {
    if s == [] then 0 else DigitsValue(s[..|s| - 1]) * 10 + DigitValue(s[|s| - 1])
  }

  lemma {:induction false} DigitsValueAppend(s: string, t: string)
    requires AllDigits(s) && AllDigits(t)
    ensures AllDigits(s + t)
    ensures DigitsValue(s + t) == DigitsValue(s) * Pow10(|t|) + DigitsValue(t)
  {
    var u := s + t;
    assert AllDigits(u) by {
      forall i | 0 <= i < |u| ensures IsDigit(u[i]) {
        if i >= |s| { assert u[i] == t[i - |s|]; }
      }
    }
    if t != [] {
      var t' := t[..|t| - 1];
      assert u[..|u| - 1] == s + t';
      DigitsValueAppend(s, t');
      var a, p, b, d := DigitsValue(s), Pow10(|t'|), DigitsValue(t'), DigitValue(t[|t| - 1]);
      assert DigitsValue(u) == DigitsValue(s + t') * 10 + d;
      assert DigitsValue(t) == b * 10 + d;
      assert Pow10(|t|) == p * 10;
      MulDistribute(a, p, b);
    } else {
      assert u == s;
    }
  }

  lemma MulDistribute(a: int, p: int, b: int)
    ensures (a * p + b) * 10 == a * (p * 10) + b * 10
  {
  }

  /** Decimal rendering of a natural number, as `Long.toString` prints it for n >= 0:
      no sign, no leading zeros, "0" for zero. */
  function NatToString(n: nat): (s: string)
    ensures |s| >= 1 && AllDigits(s)
    ensures |s| > 1 ==> s[0] != '0'
  {
    if n < 10 then [DigitChar(n)] else NatToString(n / 10) + [DigitChar(n % 10)]
  }

  lemma {:induction false} NatToStringValue(n: nat)
    ensures DigitsValue(NatToString(n)) == n
  {
    var s := NatToString(n);
    if n >= 10 {
      NatToStringValue(n / 10);
      assert s[..|s| - 1] == NatToString(n / 10);
    } else {
      assert s[..|s| - 1] == [];
    }
  }

  /** n rendered with at least `width` digits, padded with leading zeros. */
  function ZeroPad(n: nat, width: nat): (s: string)
    ensures AllDigits(s) && |s| >= width && |s| >= 1
  {
    var t := NatToString(n);
    if |t| >= width then t else seq(width - |t|, _ => '0') + t
  }

  lemma ZerosValue(k: nat)
    ensures AllDigits(seq(k, _ => '0')) && DigitsValue(seq(k, _ => '0')) == 0
  {
    if k > 0 {
      var z := seq(k, _ => '0');
      assert z[..k - 1] == seq(k - 1, _ => '0');
      ZerosValue(k - 1);
    }
  }

  lemma ZeroPadValue(n: nat, width: nat)
    ensures DigitsValue(ZeroPad(n, width)) == n
    ensures |ZeroPad(n, width)| == if |NatToString(n)| >= width then |NatToString(n)| else width
  {
    var t := NatToString(n);
    NatToStringValue(n);
    if |t| < width {
      var z := seq(width - |t|, _ => '0');
      assert ZeroPad(n, width) == z + t;
      ZerosValue(width - |t|);
      DigitsValueAppend(z, t);
    }
  }

  /** A digit string read back is at most `Pow10(|s|) - 1`. */
  lemma {:induction false} DigitsValueBound(s: string)
    requires AllDigits(s)
    ensures DigitsValue(s) < Pow10(|s|)
  {
    if s != [] {
      DigitsValueBound(s[..|s| - 1]);
    }
  }

  lemma NatToStringLength(n: nat, k: nat)
    requires n < Pow10(k) && k >= 1
    ensures |NatToString(n)| <= k
  {
    if n >= 10 {
      assert Pow10(1) == 10;
      assert k >= 2;
      assert n / 10 < Pow10(k - 1);
      NatToStringLength(n / 10, k - 1);
    }
  }

  /** `Character.isWhitespace` on a code point: the Unicode space, line and paragraph
      separators other than the three no-break spaces, plus the ASCII controls
      U+0009..U+000D and U+001C..U+001F. */
  predicate IsWhitespace(c: char) {
    var u := c as int;
    || 0x09 <= u <= 0x0D
    || 0x1C <= u <= 0x20
    || u == 0x1680
    || 0x2000 <= u <= 0x2006
    || 0x2008 <= u <= 0x200A
    || u == 0x2028 || u == 0x2029 || u == 0x205F || u == 0x3000
  }

  /** `String.isBlank`: empty, or white space code points only. */
  predicate IsBlank(s: string) {
    forall i :: 0 <= i < |s| ==> IsWhitespace(s[i])
  }

  /** `String.length()`: the number of UTF-16 code units, two for a code point beyond U+FFFF. */
  function Utf16Length(s: string): (n: nat)
    ensures |s| <= n <= 2 * |s|
  {
    if s == [] then 0 else (if s[0] as int > 0xFFFF then 2 else 1) + Utf16Length(s[1..])
  }

  lemma {:induction false} Utf16LengthBmp(s: string)
    requires forall i :: 0 <= i < |s| ==> s[i] as int <= 0xFFFF
    ensures Utf16Length(s) == |s|
  {
    if s != [] {
      Utf16LengthBmp(s[1..]);
    }
  }

  /** The integer a string spells with an optional leading '+' or '-' and at least one
      ASCII digit, without any range limit; None for anything else. */
  function ParseInteger(s: string): (r: Option<int>)
    ensures r.Some? <==> |s| >= 1 && (if s[0] == '+' || s[0] == '-' then |s| >= 2 && AllDigits(s[1..]) else AllDigits(s))
  {
    if |s| >= 1 && (s[0] == '+' || s[0] == '-') then
      if |s| >= 2 && AllDigits(s[1..]) then
        var magnitude: int := DigitsValue(s[1..]);
        Some(if s[0] == '-' then -magnitude else magnitude)
      else None
    else if |s| >= 1 && AllDigits(s) then Some(DigitsValue(s))
    else None
  }

  /** `Integer.parseInt(s)`: a 32-bit signed integer, or None where Java throws
      NumberFormatException. */
  function ParseInt(s: string): (r: Option<int>)
    ensures r.Some? ==> INT_MIN <= r.value <= INT_MAX && ParseInteger(s) == r
    ensures ParseInteger(s).Some? && INT_MIN <= ParseInteger(s).value <= INT_MAX ==> r == ParseInteger(s)
  {
    match ParseInteger(s)
    case Some(v) => if INT_MIN <= v <= INT_MAX then Some(v) else None
    case None => None
  }

  /** `Long.parseLong(s)`: a 64-bit signed integer, or None where Java throws
      NumberFormatException. */
  function ParseLong(s: string): (r: Option<int>)
    ensures r.Some? ==> LONG_MIN <= r.value <= LONG_MAX && ParseInteger(s) == r
    ensures ParseInteger(s).Some? && LONG_MIN <= ParseInteger(s).value <= LONG_MAX ==> r == ParseInteger(s)
  {
    match ParseInteger(s)
    case Some(v) => if LONG_MIN <= v <= LONG_MAX then Some(v) else None
    case None => None
  }

  /** An int computed in Java's 32-bit arithmetic: x wrapped around into the int range. */
  function Wrap32(x: int): (r: int)
    ensures INT_MIN <= r <= INT_MAX
    ensures INT_MIN <= x <= INT_MAX ==> r == x
    ensures INT_MAX < x <= INT_MAX - INT_MIN ==> r == x - 0x1_0000_0000
  {
    (x - INT_MIN) % 0x1_0000_0000 + INT_MIN
  }

  /** `Long.toString(v)`. */
  function IntToString(v: int): (s: string) {
    if v < 0 then "-" + NatToString(-v) else NatToString(v)
  }

  /** `Long.toString(v)` is never empty and ends in a digit. */
  lemma IntToStringEndsInDigit(v: int)
    ensures |IntToString(v)| >= 1 && IsDigit(IntToString(v)[|IntToString(v)| - 1])
  {
    if v < 0 {
      var t := NatToString(-v);
      assert IntToString(v)[|IntToString(v)| - 1] == t[|t| - 1];
    }
  }

  lemma ParseIntegerRoundTrip(v: int)
    ensures ParseInteger(IntToString(v)) == Some(v)
  {
    var s := IntToString(v);
    if v < 0 {
      NatToStringValue(-v);
      assert s[1..] == NatToString(-v);
    } else {
      NatToStringValue(v);
    }
  }

  /** `String.indexOf(c)`, with |s| standing for "not found". */
  function IndexOf(s: string, c: char): (i: nat)
    ensures i <= |s|
    ensures i < |s| ==> s[i] == c
    ensures forall j :: 0 <= j < i ==> s[j] != c
  {
    if s == [] then 0 else if s[0] == c then 0 else 1 + IndexOf(s[1..], c)
  }
}
