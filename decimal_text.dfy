/** The text side of the scale-2 results: `BigDecimal.toString()` of a value with scale 2, and
    the proof that `new BigDecimal(String)` reads every such text back exactly. */
module DecimalText {

  import opened Optional
  import opened Text
  import opened Decimals

  /** `toString()` of a BigDecimal with scale 2 and unscaled value u: plain notation, an
      optional '-', the integer part without leading zeros ("0" when it is zero), a point and
      exactly two fraction digits. */
  function RenderHundredths(u: int): (s: string)
    ensures |s| >= 4 && s[|s| - 3] == '.'
  {
    var m := Abs(u);
    assert Pow10(2) == 100;
    NatToStringLength(m % 100, 2);
    ZeroPadValue(m % 100, 2);
    (if u < 0 then "-" else "") + NatToString(m / 100) + "." + ZeroPad(m % 100, 2)
  }

  /** A plain decimal numeral — optional '-', at least one integer digit, a point, fraction
      digits — reads back as its digits at the scale of its fraction length. */
  lemma ParsePlain(negative: bool, w: string, f: string, body: string, str: string, v: int)
    requires |w| >= 1 && AllDigits(w) && AllDigits(f) && ScaleInRange(|f|)
    requires body == w + "." + f && str == (if negative then "-" else "") + body
    requires v == DigitsValue(w) * Pow10(|f|) + DigitsValue(f)
    ensures ParseDecimal(str) == Some(Decimal(if negative then -v else v, |f|))
  {
    var x := Decimal(if negative then -v else v, |f|);
    NoExponentMark(body, w, f);
    SignificandPlain(body, w, f);
    WithoutExponent(body, negative, v, |f|, x);
    SignPrefix(negative, w, f, body, str);
    SignThenBody(str, body, negative, x);
  }

  lemma SignThenBody(str: string, body: string, negative: bool, x: Decimal)
    requires WithoutSign(str) == body && (|str| >= 1 && str[0] == '-') == negative
    requires ParseUnsigned(body, negative) == Some(x)
    ensures ParseDecimal(str) == Some(x)
  {
  }

  lemma SignPrefix(negative: bool, w: string, f: string, body: string, str: string)
    requires |w| >= 1 && AllDigits(w) && body == w + "." + f
    requires str == (if negative then "-" else "") + body
    ensures WithoutSign(str) == body && (|str| >= 1 && str[0] == '-') == negative
  {
    if negative {
      assert str[0] == '-' && str[1..] == body;
    } else {
      assert str[0] == w[0] && str == body;
    }
  }

  lemma WithoutExponent(body: string, negative: bool, m: nat, k: nat, x: Decimal)
    requires ExponentMarkIndex(body) == |body| && ParseSignificand(body) == Some((m, k))
    requires ScaleInRange(k) && x == Decimal(if negative then -(m as int) else m, k)
    ensures ParseUnsigned(body, negative) == Some(x)
  {
    UnsignedWithoutExponent(body, negative);
    AssembleWithoutExponent(ParseSignificand(body), negative, m, k, x);
  }

  lemma AssembleWithoutExponent(significand: Option<(nat, nat)>, negative: bool, m: nat, k: nat, x: Decimal)
    requires significand == Some((m, k))
    requires ScaleInRange(k) && x == Decimal(if negative then -(m as int) else m, k)
    ensures Assemble(significand, Some(0), negative) == Some(x)
  {
  }

  lemma UnsignedWithoutExponent(body: string, negative: bool)
    requires ExponentMarkIndex(body) == |body|
    ensures ParseUnsigned(body, negative) == Assemble(ParseSignificand(body), Some(0), negative)
  {
    assert body[..|body|] == body;
  }

  lemma SignificandPlain(body: string, w: string, f: string)
    requires |w| >= 1 && AllDigits(w) && AllDigits(f) && body == w + "." + f
    ensures ParseSignificand(body) == Some((DigitsValue(w) * Pow10(|f|) + DigitsValue(f), |f|))
  {
    DotIndex(body, w, f);
    DigitsValueAppend(w, f);
  }

  lemma NoExponentMark(body: string, w: string, f: string)
    requires AllDigits(w) && AllDigits(f) && body == w + "." + f
    ensures ExponentMarkIndex(body) == |body|
  {
    var i := ExponentMarkIndex(body);
  }

  lemma DotIndex(body: string, w: string, f: string)
    requires AllDigits(w) && body == w + "." + f
    ensures IndexOf(body, '.') == |w|
    ensures body[..|w|] == w && body[|w| + 1..] == f
  {
    assert body[|w|] == '.';
  }

  // ---------------------------------------------------------------------------------------
  // Other numerals an attribute may hold

  /** An integer numeral, as `Long.toString` prints it, reads as that integer at scale 0. */
  lemma ParseDecimalInteger(n: int)
    ensures ParseDecimal(IntToString(n)) == Some(Decimal(n, 0))
  {
    var m := Abs(n);
    var body := NatToString(m);
    DigitsWithoutMarks(body);
    NatToStringValue(m);
    assert ParseSignificand(body) == Some((m, 0));
    WithoutExponent(body, n < 0, m, 0, Decimal(n, 0));
    SignedText(n, body, "", IntToString(n));
    assert body + "" == body;
    SignThenBody(IntToString(n), body, n < 0, Decimal(n, 0));
  }

  /** An integer numeral with a decimal exponent, as in "12E3", reads as the integer at the
      scale minus the exponent, when that scale fits an int. */
  lemma ParseDecimalScientific(n: int, x: int)
    requires ScaleInRange(-x)
    ensures ParseDecimal(IntToString(n) + "E" + IntToString(x)) == Some(Decimal(n, -x))
  {
    ScientificText(n, x, IntToString(n) + "E" + IntToString(x));
  }

  lemma ScientificText(n: int, x: int, str: string)
    requires ScaleInRange(-x) && str == IntToString(n) + "E" + IntToString(x)
    ensures ParseDecimal(str) == Some(Decimal(n, -x))
  {
    var w, tail := NatToString(Abs(n)), "E" + IntToString(x);
    var body := w + tail;
    Regroup(IntToString(n), "E", IntToString(x), str);
    UnsignedScientific(n, x, w, body);
    SignedText(n, w, tail, str);
    SignThenBody(str, body, n < 0, Decimal(n, -x));
  }

  lemma Regroup(a: string, b: string, c: string, s: string)
    requires s == a + b + c
    ensures s == a + (b + c)
  {
  }

  lemma UnsignedScientific(n: int, x: int, w: string, body: string)
    requires ScaleInRange(-x) && w == NatToString(Abs(n)) && body == w + ("E" + IntToString(x))
    ensures ParseUnsigned(body, n < 0) == Some(Decimal(n, -x))
  {
    DigitsWithoutMarks(w);
    NatToStringValue(Abs(n));
    Regroup(w, "E", IntToString(x), body);
    ExponentAfterDigits(w, IntToString(x), body);
    UnsignedWithExponent(body, n < 0, |w|);
    ParseIntegerRoundTrip(x);
    assert ParseSignificand(w) == Some((Abs(n), 0));
    AssembleScientific(Abs(n), x, n);
  }

  lemma UnsignedWithExponent(body: string, negative: bool, e: nat)
    requires e < |body| && ExponentMarkIndex(body) == e
    ensures ParseUnsigned(body, negative) == Assemble(ParseSignificand(body[..e]), ParseInteger(body[e + 1..]), negative)
  {
  }

  lemma AssembleScientific(m: nat, x: int, n: int)
    requires m == Abs(n) && ScaleInRange(-x)
    ensures Assemble(Some((m, 0)), Some(x), n < 0) == Some(Decimal(n, -x))
  {
  }

  /** Text without any ASCII digit is never a number. */
  lemma NoDigitNoNumber(s: string)
    requires forall i :: 0 <= i < |s| ==> !IsDigit(s[i])
    ensures ParseDecimal(s) == None
  {
    var body := WithoutSign(s);
    var m := body[..ExponentMarkIndex(body)];
    assert forall i :: 0 <= i < |m| ==> !IsDigit(m[i]) by {
      forall i | 0 <= i < |m| ensures !IsDigit(m[i]) {
        if |s| >= 1 && (s[0] == '+' || s[0] == '-') {
          assert m[i] == s[i + 1];
        } else {
          assert m[i] == s[i];
        }
      }
    }
    NoDigitNoSignificand(m);
  }

  lemma NoDigitNoSignificand(m: string)
    requires forall i :: 0 <= i < |m| ==> !IsDigit(m[i])
    ensures ParseSignificand(m) == None
  {
    var p := IndexOf(m, '.');
    if p == |m| {
      if |m| >= 1 {
        assert !IsDigit(m[0]);
      }
    } else {
      var t := m[..p] + m[p + 1..];
      if |t| >= 1 {
        if p >= 1 {
          assert t[0] == m[0];
        } else {
          assert t[0] == m[1];
        }
      }
    }
  }

  /** A digit string holds neither an exponent mark nor a point. */
  lemma DigitsWithoutMarks(s: string)
    requires AllDigits(s)
    ensures ExponentMarkIndex(s) == |s| && IndexOf(s, '.') == |s|
  {
    var e, p := ExponentMarkIndex(s), IndexOf(s, '.');
  }

  lemma ExponentAfterDigits(w: string, t: string, body: string)
    requires AllDigits(w) && body == w + "E" + t
    ensures ExponentMarkIndex(body) == |w| && body[..|w|] == w && body[|w| + 1..] == t
  {
    var e := ExponentMarkIndex(body);
    assert body[|w|] == 'E';
  }

  /** `Long.toString(n)`, followed by anything, is a '-' exactly for negative n, then the
      digits of |n|. */
  lemma SignedText(n: int, w: string, tail: string, str: string)
    requires w == NatToString(Abs(n)) && str == IntToString(n) + tail
    ensures WithoutSign(str) == w + tail && (|str| >= 1 && str[0] == '-') == (n < 0)
  {
    assert IsDigit(w[0]);
    if n < 0 {
      assert str[0] == '-' && str[1..] == w + tail;
    } else {
      assert str[0] == w[0];
    }
  }

  /** Rendering a scale-2 value and reading it back gives the same value at the same scale. */
  lemma RenderHundredthsRoundTrip(u: int)
    ensures ParseDecimal(RenderHundredths(u)) == Some(Decimal(u, 2))
  {
    var m := Abs(u);
    var w, f := NatToString(m / 100), ZeroPad(m % 100, 2);
    assert Pow10(2) == 100;
    NatToStringLength(m % 100, 2);
    ZeroPadValue(m % 100, 2);
    NatToStringValue(m / 100);
    ParsePlain(u < 0, w, f, w + "." + f, RenderHundredths(u), m);
  }
}
