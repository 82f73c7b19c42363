/** `java.math.BigDecimal` as the calculators use it: a value is an unscaled integer and a
    32-bit scale, standing for unscaled * 10^-scale. The string constructor, the four exact
    operations with their scale rules and their ArithmeticException cases, `setScale(2,
    RoundingMode.CEILING)` and `toString` of a scale-2 value. An operation that throws is None. */
module Decimals {

  import opened Optional
  import opened Text

  datatype Decimal = Decimal(unscaled: int, scale: int)

  predicate ScaleInRange(s: int) {
    INT_MIN <= s <= INT_MAX
  }

  /** Every BigDecimal has a scale that fits a Java int. */
  predicate Valid(d: Decimal) {
    ScaleInRange(d.scale)
  }

  /** A long narrowed to an int the way BigDecimal.saturateLong does it. */
  function Saturate(s: int): (r: int)
    ensures ScaleInRange(r)
    ensures ScaleInRange(s) ==> r == s
    ensures s > INT_MAX ==> r == INT_MAX
    ensures s < INT_MIN ==> r == INT_MIN
  {
    if s > INT_MAX then INT_MAX else if s < INT_MIN then INT_MIN else s
  }

  function Abs(n: int): (r: nat)
    ensures r == n || r == -n
  {
    if n < 0 then -n else n
  }

  function Power(b: nat, e: nat): (p: nat)
    ensures b >= 1 ==> p >= 1
  {
    if e == 0 then 1 else b * Power(b, e - 1)
  }

  // ---------------------------------------------------------------------------------------
  // The value a Decimal stands for, counted in units of 10^-s at any scale s it fits

  /** d's value as a whole number of units of 10^-s: unscaled * 10^(s - scale). */
  function Units(d: Decimal, s: int): int
    requires s >= d.scale
  {
    d.unscaled * Pow10(s - d.scale)
  }

  /** Two decimals stand for the same number (BigDecimal.compareTo == 0), whatever their scales. */
  predicate SameValue(x: Decimal, y: Decimal) {
    var s := if x.scale >= y.scale then x.scale else y.scale;
    Units(x, s) == Units(y, s)
  }

  lemma MulAssoc(a: int, b: int, c: int)
    ensures (a * b) * c == a * (b * c)
  {
  }

  lemma Distribute(a: int, b: int, c: int)
    ensures (a + b) * c == a * c + b * c
  {
  }

  /** Counting units at a finer scale multiplies the count by the matching power of ten. */
  lemma {:induction false} UnitsRefine(d: Decimal, s: int, k: nat)
    requires s >= d.scale
    ensures Units(d, s + k) == Units(d, s) * Pow10(k)
  {
    Pow10Add(s - d.scale, k);
    MulAssoc(d.unscaled, Pow10(s - d.scale), Pow10(k));
  }

  /** A value written at a larger scale, with the unscaled part multiplied to match, is the same value. */
  lemma UnitsRescale(u: int, t: int, k: nat, s: int)
    requires s >= t + k
    ensures Units(Decimal(u * Pow10(k), t + k), s) == Units(Decimal(u, t), s)
  {
    Pow10Add(k, s - t - k);
    MulAssoc(u, Pow10(k), Pow10(s - t - k));
  }

  lemma UnitsSum(a: int, b: int, t: int, s: int)
    requires s >= t
    ensures Units(Decimal(a + b, t), s) == Units(Decimal(a, t), s) + Units(Decimal(b, t), s)
  {
    Distribute(a, b, Pow10(s - t));
  }

  lemma UnitsProduct(x: Decimal, y: Decimal, s: int, t: int)
    requires s >= x.scale && t >= y.scale
    ensures Units(Decimal(x.unscaled * y.unscaled, x.scale + y.scale), s + t) == Units(x, s) * Units(y, t)
  {
    var p, q := Pow10(s - x.scale), Pow10(t - y.scale);
    Pow10Add(s - x.scale, t - y.scale);
    assert (x.unscaled * y.unscaled) * (p * q) == (x.unscaled * p) * (y.unscaled * q);
  }

  // ---------------------------------------------------------------------------------------
  // new BigDecimal(String)

  /** The index of the exponent mark 'e' or 'E', or |s| when there is none. */
  function ExponentMarkIndex(s: string): (i: nat)
    ensures i <= |s|
    ensures i < |s| ==> s[i] == 'e' || s[i] == 'E'
    ensures forall j :: 0 <= j < i ==> s[j] != 'e' && s[j] != 'E'
  {
    if s == [] then 0 else if s[0] == 'e' || s[0] == 'E' then 0 else 1 + ExponentMarkIndex(s[1..])
  }

  /** The significand without its sign: digits with at most one '.', at least one digit.
      Yields the digits on both sides of the point read as one integer, and the number of
      digits after the point. */
  function ParseSignificand(m: string): (r: Option<(nat, nat)>)
    ensures r.Some? ==> |m| >= 1
  {
    var p := IndexOf(m, '.');
    if p == |m| then
      if |m| >= 1 && AllDigits(m) then Some((DigitsValue(m), 0)) else None
    else
      var whole, fraction := m[..p], m[p + 1..];
      if |whole| + |fraction| >= 1 && AllDigits(whole + fraction) then
        Some((DigitsValue(whole + fraction), |fraction|))
      else None
  }

  /** `new BigDecimal(s)`: an optional sign, a significand, and an optional exponent made of
      'e' or 'E', an optional sign and at least one digit; the scale is the number of
      fraction digits minus the exponent and must fit an int. None where Java throws
      NumberFormatException. */
  function ParseDecimal(s: string): (r: Option<Decimal>)
    ensures r.Some? ==> Valid(r.value) && |s| >= 1
  {
    ParseUnsigned(WithoutSign(s), |s| >= 1 && s[0] == '-')
  }

  /** s without its leading '+' or '-', if it has one. */
  function WithoutSign(s: string): (t: string)
    ensures |t| <= |s|
  {
    if |s| >= 1 && (s[0] == '+' || s[0] == '-') then s[1..] else s
  }

  /** What follows the sign: significand and optional exponent. */
  function ParseUnsigned(body: string, negative: bool): (r: Option<Decimal>)
    ensures r.Some? ==> Valid(r.value) && |body| >= 1
  {
    var e := ExponentMarkIndex(body);
    var exponent := if e == |body| then Some(0) else ParseInteger(body[e + 1..]);
    Assemble(ParseSignificand(body[..e]), exponent, negative)
  }

  /** The number a significand and an exponent stand for: the significand's digits at the
      scale of its fraction length minus the exponent, which must fit an int. */
  function Assemble(significand: Option<(nat, nat)>, exponent: Option<int>, negative: bool): (r: Option<Decimal>)
    ensures r.Some? ==> Valid(r.value) && significand.Some?
    ensures significand.Some? && exponent == Some(0) && ScaleInRange(significand.value.1) ==>
      r == Some(Decimal(if negative then -(significand.value.0 as int) else significand.value.0, significand.value.1))
  {
    if significand.None? || exponent.None? then None
    else
      var magnitude, scale := significand.value.0, significand.value.1 - exponent.value;
      if ScaleInRange(scale) then Some(Decimal(if negative then -(magnitude as int) else magnitude, scale))
      else None
  }

  // ---------------------------------------------------------------------------------------
  // add, subtract, multiply, divide

  /** `x.add(y)`: exact, at the larger scale. Raising the smaller-scale operand by more than
      Integer.MAX_VALUE digits throws unless that operand is zero. */
  function Add(x: Decimal, y: Decimal): (r: Option<Decimal>)
    requires Valid(x) && Valid(y)
    ensures r.Some? ==> Valid(r.value) && r.value.scale == if x.scale >= y.scale then x.scale else y.scale
    ensures r.None? <==> (x.scale < y.scale - INT_MAX && x.unscaled != 0) || (y.scale < x.scale - INT_MAX && y.unscaled != 0)
  {
    if x.scale == y.scale then Some(Decimal(x.unscaled + y.unscaled, x.scale))
    else if x.scale < y.scale then
      if y.scale - x.scale > INT_MAX && x.unscaled != 0 then None
      else Some(Decimal(x.unscaled * Pow10(y.scale - x.scale) + y.unscaled, y.scale))
    else
      if x.scale - y.scale > INT_MAX && y.unscaled != 0 then None
      else Some(Decimal(x.unscaled + y.unscaled * Pow10(x.scale - y.scale), x.scale))
  }

  function Negate(y: Decimal): (r: Decimal)
    ensures r.scale == y.scale && r.unscaled == -y.unscaled
  {
    Decimal(-y.unscaled, y.scale)
  }

  /** `x.subtract(y)`: `x.add(y.negate())`, with the same scale rule. */
  function Subtract(x: Decimal, y: Decimal): (r: Option<Decimal>)
    requires Valid(x) && Valid(y)
  {
    Add(x, Negate(y))
  }

  /** `x.multiply(y)`: exact, at scale x.scale + y.scale; when that sum leaves the int range
      Java throws unless x is zero, in which case the scale saturates. */
  function Multiply(x: Decimal, y: Decimal): (r: Option<Decimal>)
    requires Valid(x) && Valid(y)
    ensures r.Some? ==> Valid(r.value)
    ensures r.None? <==> !ScaleInRange(x.scale + y.scale) && x.unscaled != 0
    ensures ScaleInRange(x.scale + y.scale) ==> r == Some(Decimal(x.unscaled * y.unscaled, x.scale + y.scale))
  {
    var scale := x.scale + y.scale;
    if ScaleInRange(scale) then Some(Decimal(x.unscaled * y.unscaled, scale))
    else if x.unscaled != 0 then None
    else Some(Decimal(0, Saturate(scale)))
  }

  /** The sum is exact: counted at any scale both operands fit, it is the sum of the counts. */
  lemma AddExact(x: Decimal, y: Decimal, s: int)
    requires Valid(x) && Valid(y) && Add(x, y).Some?
    requires s >= x.scale && s >= y.scale
    ensures Units(Add(x, y).value, s) == Units(x, s) + Units(y, s)
  {
    if x.scale < y.scale {
      var k := y.scale - x.scale;
      UnitsSum(x.unscaled * Pow10(k), y.unscaled, y.scale, s);
      UnitsRescale(x.unscaled, x.scale, k, s);
    } else if x.scale > y.scale {
      var k := x.scale - y.scale;
      UnitsSum(x.unscaled, y.unscaled * Pow10(k), x.scale, s);
      UnitsRescale(y.unscaled, y.scale, k, s);
    } else {
      UnitsSum(x.unscaled, y.unscaled, x.scale, s);
    }
  }

  lemma SubtractExact(x: Decimal, y: Decimal, s: int)
    requires Valid(x) && Valid(y) && Subtract(x, y).Some?
    requires s >= x.scale && s >= y.scale
    ensures Units(Subtract(x, y).value, s) == Units(x, s) - Units(y, s)
  {
    AddExact(x, Negate(y), s);
  }

  /** The product is exact: counts at scales s and t multiply to the product's count at s + t. */
  lemma MultiplyExact(x: Decimal, y: Decimal, s: int, t: int)
    requires Valid(x) && Valid(y) && Multiply(x, y).Some?
    requires s >= x.scale && t >= y.scale && ScaleInRange(x.scale + y.scale)
    ensures Units(Multiply(x, y).value, s + t) == Units(x, s) * Units(y, t)
  {
    UnitsProduct(x, y, s, t);
  }

  /** n = p^count * rest with rest not divisible by p. */
  function StripFactor(n: nat, p: nat): (r: (nat, nat))
    requires n >= 1 && p >= 2
    ensures r.1 >= 1 && r.1 % p != 0 && n == Power(p, r.0) * r.1
    decreases n
  {
    if n % p == 0 then
      var inner := StripFactor(n / p, p);
      MulAssoc(p, Power(p, inner.0), inner.1);
      (inner.0 + 1, inner.1)
    else (0, n)
  }

  /** Drops trailing zeros from the unscaled value while the scale stays above `floor`. */
  function StripZeros(u: int, s: int, floor: int): (r: Decimal)
    requires s >= floor
    ensures floor <= r.scale <= s
    ensures r.scale > floor ==> r.unscaled % 10 != 0
    ensures Units(r, s) == u
    decreases s - floor
  {
    if s > floor && u % 10 == 0 then
      var r := StripZeros(u / 10, s - 1, floor);
      UnitsRefine(r, s - 1, 1);
      r
    else Decimal(u, s)
  }

  /** The exact quotient a / b (b != 0) as c * 10^-k with the least k that works, when
      one exists: b's factors other than 2 and 5 must divide a. */
  function ExactQuotient(a: int, b: int): (r: Option<(int, nat)>)
    requires b != 0
    ensures r.Some? ==> r.value.0 * b == a * Pow10(r.value.1)
  {
    var twos := StripFactor(Abs(b), 2);
    var fives := StripFactor(twos.1, 5);
    var rest := fives.1;
    if Abs(a) % rest != 0 then None
    else
      var i, j := twos.0, fives.0;
      var k := if i >= j then i else j;
      var c := (Abs(a) / rest) * Power(2, k - i) * Power(5, k - j);
      DivideCore(Abs(a), Abs(b), i, j, rest, k);
      var u := if (a < 0) != (b < 0) then -c else c;
      ApplySigns(a, b, c, Pow10(k));
      Some((u, k))
  }

  /** `x.divide(y)`: the exact quotient. A zero divisor throws (also for 0/0); a zero dividend
      gives zero at the preferred scale x.scale - y.scale, saturated to the int range; a
      quotient without a finite decimal expansion throws. Otherwise the quotient has the
      preferred scale, or the smallest larger scale that represents it exactly. */
  function Divide(x: Decimal, y: Decimal): (r: Option<Decimal>)
    requires Valid(x) && Valid(y)
    ensures y.unscaled == 0 ==> r.None?
    ensures x.unscaled == 0 && y.unscaled != 0 ==> r == Some(Decimal(0, Saturate(x.scale - y.scale)))
    ensures r.Some? ==> Valid(r.value)
    ensures r.Some? && x.unscaled != 0 ==> r.value.scale >= x.scale - y.scale
    ensures r.Some? && x.unscaled != 0 && r.value.scale > x.scale - y.scale ==> r.value.unscaled % 10 != 0
  {
    if y.unscaled == 0 then None
    else if x.unscaled == 0 then Some(Decimal(0, Saturate(x.scale - y.scale)))
    else
      match ExactQuotient(x.unscaled, y.unscaled)
      case None => None
      case Some((u, k)) =>
        var q := StripZeros(u, x.scale - y.scale + k, x.scale - y.scale);
        if ScaleInRange(q.scale) then Some(q) else None
  }

  lemma ApplySigns(a: int, b: int, c: int, p: int)
    requires c * Abs(b) == Abs(a) * p
    ensures (if (a < 0) != (b < 0) then -c else c) * b == a * p
  {
    if b < 0 {
      assert c * b == -(c * Abs(b));
    }
    if a < 0 {
      assert a * p == -(Abs(a) * p);
    }
  }

  lemma {:induction false} PowerAdd(b: nat, m: nat, n: nat)
    ensures Power(b, m + n) == Power(b, m) * Power(b, n)
  {
    if n > 0 {
      PowerAdd(b, m, n - 1);
      MulSwap(b, Power(b, m), Power(b, n - 1));
    }
  }

  lemma MulSwap(a: int, b: int, c: int)
    ensures a * (b * c) == b * (a * c)
  {
  }

  lemma {:induction false} PowerTenSplit(k: nat)
    ensures Power(2, k) * Power(5, k) == Pow10(k)
  {
    if k > 0 {
      PowerTenSplit(k - 1);
      var a, b := Power(2, k - 1), Power(5, k - 1);
      assert (2 * a) * (5 * b) == 10 * (a * b);
    }
  }

  lemma Regroup(m: int, p2: int, p5: int, q2: int, q5: int, rest: int)
    ensures m * p2 * p5 * (q2 * (q5 * rest)) == (m * rest) * ((p2 * q2) * (p5 * q5))
  {
  }

  /** The integer heart of the division: c * b == a * 10^k. */
  lemma DivideCore(a: nat, b: nat, i: nat, j: nat, rest: nat, k: nat)
    requires rest >= 1 && a % rest == 0
    requires b == Power(2, i) * (Power(5, j) * rest)
    requires k >= i && k >= j
    ensures (a / rest) * Power(2, k - i) * Power(5, k - j) * b == a * Pow10(k)
  {
    var m := a / rest;
    assert a == m * rest;
    var p2, p5, q2, q5 := Power(2, k - i), Power(5, k - j), Power(2, i), Power(5, j);
    PowerAdd(2, k - i, i);
    PowerAdd(5, k - j, j);
    PowerTenSplit(k);
    Regroup(m, p2, p5, q2, q5, rest);
  }

  lemma DivideShape(x: Decimal, y: Decimal)
    requires Valid(x) && Valid(y) && Divide(x, y).Some? && x.unscaled != 0
    ensures ExactQuotient(x.unscaled, y.unscaled).Some?
    ensures var (u, k) := ExactQuotient(x.unscaled, y.unscaled).value;
      Divide(x, y).value == StripZeros(u, x.scale - y.scale + k, x.scale - y.scale)
  {
  }

  lemma Cancel(a: int, b: int, p: int)
    requires p > 0 && a * p == b * p
    ensures a == b
  {
  }

  /** A product identity between counts that holds at a finer scale holds at a coarser one. */
  lemma UnitsProductCoarsen(q: Decimal, y: Decimal, x: Decimal, s: int, t: int, m: nat)
    requires s >= q.scale && t >= y.scale && s + t >= x.scale
    requires Units(q, s + m) * Units(y, t) == Units(x, s + m + t)
    ensures Units(q, s) * Units(y, t) == Units(x, s + t)
  {
    var a, b, c, p := Units(q, s), Units(y, t), Units(x, s + t), Pow10(m);
    UnitsRefine(q, s, m);
    UnitsRefine(x, s + t, m);
    assert s + m + t == s + t + m;
    ScaledProduct(a, b, c, p);
  }

  lemma ScaledProduct(a: int, b: int, c: int, p: int)
    requires p > 0 && (a * p) * b == c * p
    ensures a * b == c
  {
    assert (a * p) * b == (a * b) * p by {
      MulAssoc(a, p, b);
      MulAssoc(a, b, p);
    }
    Cancel(a * b, c, p);
  }

  /** The quotient is exact: counted at scales s and t, quotient times divisor is the dividend. */
  lemma DivideExact(x: Decimal, y: Decimal, s: int, t: int)
    requires Valid(x) && Valid(y) && Divide(x, y).Some?
    requires s >= Divide(x, y).value.scale && t >= y.scale && s + t >= x.scale
    ensures Units(Divide(x, y).value, s) * Units(y, t) == Units(x, s + t)
  {
    var q := Divide(x, y).value;
    if x.unscaled == 0 {
      assert q.unscaled == 0;
      assert Units(q, s) == 0;
      assert Units(x, s + t) == 0;
    } else {
      DivideShape(x, y);
      var (u, k) := ExactQuotient(x.unscaled, y.unscaled).value;
      var s0 := x.scale - y.scale + k;
      // Work at a scale S at or above both s and s0, then come back down to s.
      var S := if s >= s0 then s else s0;
      UnitsRefine(q, s0, S - s0);
      calc {
        Units(q, S) * Units(y, t);
        Units(Decimal(u, s0), S) * Units(y, t);
        { UnitsProduct(Decimal(u, s0), y, S, t); }
        Units(Decimal(u * y.unscaled, s0 + y.scale), S + t);
        Units(Decimal(x.unscaled * Pow10(k), x.scale + k), S + t);
        { UnitsRescale(x.unscaled, x.scale, k, S + t); }
        Units(x, S + t);
      }
      UnitsProductCoarsen(q, y, x, s, t, S - s);
    }
  }

  // ---------------------------------------------------------------------------------------
  // setScale(2, RoundingMode.CEILING) and toString

  /** r hundredths is the least multiple of 0.01 that is not below d: d rounded toward +infinity
      at two fraction digits. Both sides are counted at a scale fine enough for d and for 0.01. */
  predicate IsCeilingHundredths(d: Decimal, r: int) {
    var s := if d.scale >= 2 then d.scale else 2;
    Units(Decimal(r - 1, 2), s) < Units(d, s) <= Units(Decimal(r, 2), s)
  }

  /** `d.setScale(2, RoundingMode.CEILING)`: the same value when d has at most two fraction
      digits, otherwise rounded toward +infinity. Raising the scale by more than
      Integer.MAX_VALUE digits throws unless d is zero. */
  function SetScale2Ceiling(d: Decimal): (r: Option<Decimal>)
    requires Valid(d)
    ensures r.Some? ==> r.value.scale == 2
    ensures r.None? <==> d.unscaled != 0 && 2 - d.scale > INT_MAX
  {
    if d.scale == 2 then Some(d)
    else if d.unscaled == 0 then Some(Decimal(0, 2))
    else if d.scale < 2 then
      if 2 - d.scale > INT_MAX then None else Some(Decimal(d.unscaled * Pow10(2 - d.scale), 2))
    else Some(Decimal(-((-d.unscaled) / Pow10(d.scale - 2)), 2))
  }

  /** Ceiling division by a positive p, the way CEILING rounding drops digits. */
  lemma CeilingDivision(u: int, p: int)
    requires p > 0
    ensures var r := -((-u) / p); (r - 1) * p < u <= r * p
  {
    var q, m := (-u) / p, (-u) % p;
    assert -u == q * p + m && 0 <= m < p;
    var r := -q;
    assert r * p == u + m;
    assert (r - 1) * p == u + m - p;
  }

  lemma SetScale2CeilingRoundsUp(d: Decimal)
    requires Valid(d) && SetScale2Ceiling(d).Some?
    ensures IsCeilingHundredths(d, SetScale2Ceiling(d).value.unscaled)
  {
    var r := SetScale2Ceiling(d).value.unscaled;
    assert Pow10(0) == 1;
    if d.scale > 2 {
      var p := Pow10(d.scale - 2);
      assert Units(d, d.scale) == d.unscaled;
      assert Units(Decimal(r, 2), d.scale) == r * p;
      assert Units(Decimal(r - 1, 2), d.scale) == (r - 1) * p;
      if d.unscaled != 0 {
        CeilingDivision(d.unscaled, p);
      }
    } else if d.scale < 2 {
      assert Units(d, 2) == d.unscaled * Pow10(2 - d.scale);
    }
  }

  /** The ceiling at two fraction digits is unique. */
  lemma CeilingHundredthsUnique(d: Decimal, r1: int, r2: int)
    requires IsCeilingHundredths(d, r1) && IsCeilingHundredths(d, r2)
    ensures r1 == r2
  {
    var s := if d.scale >= 2 then d.scale else 2;
    var p := Pow10(s - 2);
    assert Units(Decimal(r1, 2), s) == r1 * p && Units(Decimal(r1 - 1, 2), s) == (r1 - 1) * p;
    assert Units(Decimal(r2, 2), s) == r2 * p && Units(Decimal(r2 - 1, 2), s) == (r2 - 1) * p;
  }
}
