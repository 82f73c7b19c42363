/** The text form of a date in ISO 8601 extended calendar format (ISO 8601:2004 section
    4.1.2.2), as `DateTimeFormatter.ISO_LOCAL_DATE` prints it and as `LocalDate.parse` reads it
    with its strict resolver: a year of at least four digits (a '+' sign exactly when more than
    four are needed, a '-' sign for years before year 0), then '-', a two-digit month, '-' and a
    two-digit day. */
module IsoDates {

  import opened Optional
  import opened Text
  import opened Dates

  // ---------------------------------------------------------------------------------------
  // Formatting

  /** The year field, `appendValue(YEAR, 4, 10, SignStyle.EXCEEDS_PAD)` when printing. */
  function YearText(y: int): string {
    if 0 <= y <= 9999 then ZeroPad(y, 4)
    else if y > 9999 then "+" + NatToString(y)
    else "-" + ZeroPad(-y, 4)
  }

  /** `ISO_LOCAL_DATE.format(d)`; `ISO_DATE` prints a LocalDate the same way, as a LocalDate has
      no offset to append. */
  function FormatIso(d: Date): string
    requires Valid(d)
  {
    YearText(d.year) + "-" + ZeroPad(d.month, 2) + "-" + ZeroPad(d.day, 2)
  }

  // ---------------------------------------------------------------------------------------
  // Parsing

  /** The length of the leading run of ASCII digits. */
  function DigitRun(s: string): (n: nat)
    ensures n <= |s| && AllDigits(s[..n])
    ensures n < |s| ==> !IsDigit(s[n])
  {
    if s == [] || !IsDigit(s[0]) then 0
    else
      var n := 1 + DigitRun(s[1..]);
      assert forall i :: 1 <= i < n ==> s[..n][i] == s[1..][..n - 1][i - 1];
      n
  }

  /** The year field when parsing strictly: four to ten digits; '+' only when there are more
      than four, more than four only with a sign, and no negative zero. */
  function ParseYear(sign: string, digits: string): (r: Option<int>)
    requires AllDigits(digits)
    ensures r.Some? ==> 4 <= |digits| <= 10 && (sign == "" ==> |digits| == 4)
  {
    var n := |digits|;
    if n < 4 || n > 10 then None
    else if sign == "+" && n <= 4 then None
    else if sign == "" && n > 4 then None
    else if sign == "-" && DigitsValue(digits) == 0 then None
    else Some(if sign == "-" then -(DigitsValue(digits) as int) else DigitsValue(digits))
  }

  /** A month or day field: exactly two ASCII digits, no sign. */
  function ParseTwoDigits(t: string): (r: Option<int>)
    ensures r.Some? ==> 0 <= r.value <= 99
  {
    if |t| == 2 && AllDigits(t) then
      DigitsValueBound(t);
      assert Pow10(2) == 100;
      Some(DigitsValue(t))
    else None
  }

  /** `LocalDate.parse(s)`: the whole text must be one ISO_LOCAL_DATE, and the fields must name
      a real day of a supported year (the strict resolver rejects 2023-02-29); None where Java
      throws DateTimeParseException. */
  function ParseIsoDate(s: string): (r: Option<Date>)
    ensures r.Some? ==> Valid(r.value)
  {
    var signed := |s| >= 1 && (s[0] == '+' || s[0] == '-');
    var sign := if signed then s[..1] else "";
    var rest := if signed then s[1..] else s;
    var n := DigitRun(rest);
    var year := ParseYear(sign, rest[..n]);
    if year.None? || |rest| != n + 6 || rest[n] != '-' || rest[n + 3] != '-' then None
    else
      var month, day := ParseTwoDigits(rest[n + 1..n + 3]), ParseTwoDigits(rest[n + 4..]);
      if month.None? || day.None? then None
      else
        var date := Date(year.value, month.value, day.value);
        if Valid(date) then Some(date) else None
  }

  // ---------------------------------------------------------------------------------------
  // Reading a formatted date back

  /** Every supported date prints as text that parses back to that date. */
  lemma ParseFormatRoundTrip(d: Date)
    requires Valid(d)
    ensures ParseIsoDate(FormatIso(d)) == Some(d)
  {
    var sign, digits := YearParts(d.year);
    var mm, dd := ZeroPad(d.month, 2), ZeroPad(d.day, 2);
    TwoDigitField(d.month);
    TwoDigitField(d.day);
    ParseAssembled(FormatIso(d), sign, digits, mm, dd, d);
  }

  /** The year text splits into a sign and digits that ParseYear reads back as the year. */
  lemma YearParts(y: int) returns (sign: string, digits: string)
    requires YearInRange(y)
    ensures YearText(y) == sign + digits && (sign == "" || sign == "+" || sign == "-")
    ensures AllDigits(digits) && ParseYear(sign, digits) == Some(y)
  {
    if 0 <= y <= 9999 {
      sign, digits := "", ZeroPad(y, 4);
      PaddedYear(y);
    } else if y > 9999 {
      sign, digits := "+", NatToString(y);
      LongYear(y);
    } else {
      sign, digits := "-", ZeroPad(-y, 4);
      NegativeYear(y);
    }
  }

  lemma PaddedYear(y: int)
    requires 0 <= y <= 9999
    ensures ParseYear("", ZeroPad(y, 4)) == Some(y)
  {
    assert Pow10(4) == 10000;
    NatToStringLength(y, 4);
    ZeroPadValue(y, 4);
  }

  lemma LongYear(y: int)
    requires 9999 < y <= MAX_YEAR
    ensures ParseYear("+", NatToString(y)) == Some(y)
  {
    var digits := NatToString(y);
    assert Pow10(4) == 10000;
    Pow10Monotone(9, 10);
    NatToStringValue(y);
    NatToStringLength(y, 9);
    DigitsValueBound(digits);
    if |digits| <= 4 {
      Pow10Monotone(|digits|, 4);
    }
  }

  lemma NegativeYear(y: int)
    requires MIN_YEAR <= y < 0
    ensures ParseYear("-", ZeroPad(-y, 4)) == Some(y)
  {
    Pow10Monotone(9, 10);
    NatToStringLength(-y, 9);
    ZeroPadValue(-y, 4);
  }

  lemma {:induction false} Pow10Monotone(a: nat, b: nat)
    requires a <= b
    ensures Pow10(a) <= Pow10(b)
    decreases b
  {
    if a < b {
      Pow10Monotone(a, b - 1);
    }
  }

  /** A month or a day prints as two digits that read back as itself. */
  lemma TwoDigitField(v: int)
    requires 1 <= v <= 31
    ensures ParseTwoDigits(ZeroPad(v, 2)) == Some(v) && |ZeroPad(v, 2)| == 2
  {
    assert Pow10(2) == 100;
    NatToStringLength(v, 2);
    ZeroPadValue(v, 2);
  }

  /** Text assembled from a sign, year digits and two-digit fields parses as their date. */
  lemma ParseAssembled(s: string, sign: string, digits: string, mm: string, dd: string, date: Date)
    requires sign == "" || sign == "+" || sign == "-"
    requires AllDigits(digits) && ParseYear(sign, digits) == Some(date.year)
    requires |mm| == 2 && |dd| == 2 && ParseTwoDigits(mm) == Some(date.month) && ParseTwoDigits(dd) == Some(date.day)
    requires Valid(date) && s == sign + digits + "-" + mm + "-" + dd
    ensures ParseIsoDate(s) == Some(date)
  {
    var rest := Decompose(s, sign, digits, mm, dd);
    ParseFromFields(s, sign, rest, |digits|, mm, dd, date);
  }

  /** Where ParseIsoDate finds the sign, the year digits and the two fields of assembled text. */
  lemma Decompose(s: string, sign: string, digits: string, mm: string, dd: string) returns (rest: string)
    requires sign == "" || sign == "+" || sign == "-"
    requires AllDigits(digits) && |digits| >= 1 && |mm| == 2 && |dd| == 2
    requires s == sign + digits + "-" + mm + "-" + dd
    ensures var signed := |s| >= 1 && (s[0] == '+' || s[0] == '-');
      (if signed then s[..1] else "") == sign && (if signed then s[1..] else s) == rest
    ensures var n := |digits|;
      DigitRun(rest) == n && |rest| == n + 6 && rest[n] == '-' && rest[n + 3] == '-'
      && rest[..n] == digits && rest[n + 1..n + 3] == mm && rest[n + 4..] == dd
  {
    var tail := "-" + mm + "-" + dd;
    rest := digits + "-" + mm + "-" + dd;
    Regroup(sign, digits, mm, dd);
    FieldsOf(rest, digits, mm, dd);
    SignOf(s, sign, digits, rest);
    DigitRunStops(digits, tail, rest);
  }

  lemma Regroup(sign: string, digits: string, mm: string, dd: string)
    ensures digits + "-" + mm + "-" + dd == digits + ("-" + mm + "-" + dd)
    ensures sign + digits + "-" + mm + "-" + dd == sign + (digits + "-" + mm + "-" + dd)
  {
  }

  lemma SignOf(s: string, sign: string, digits: string, rest: string)
    requires sign == "" || sign == "+" || sign == "-"
    requires AllDigits(digits) && |digits| >= 1 && |rest| >= |digits| && rest[..|digits|] == digits
    requires s == sign + rest
    ensures var signed := |s| >= 1 && (s[0] == '+' || s[0] == '-');
      (if signed then s[..1] else "") == sign && (if signed then s[1..] else s) == rest
  {
    if sign == "" {
      assert s[0] == digits[0];
    } else {
      assert s[..1] == sign && s[1..] == rest;
    }
  }

  /** The digit run of digits followed by a non-digit is exactly those digits. */
  lemma {:induction false} DigitRunStops(digits: string, tail: string, s: string)
    requires AllDigits(digits) && |tail| >= 1 && !IsDigit(tail[0]) && s == digits + tail
    ensures DigitRun(s) == |digits|
    decreases |digits|
  {
    if digits != [] {
      assert s[1..] == digits[1..] + tail;
      DigitRunStops(digits[1..], tail, s[1..]);
    } else {
      assert s[0] == tail[0];
    }
  }

  lemma FieldsOf(rest: string, digits: string, mm: string, dd: string)
    requires |mm| == 2 && |dd| == 2 && rest == digits + "-" + mm + "-" + dd
    ensures var n := |digits|;
      |rest| == n + 6 && rest[..n] == digits && rest[n] == '-' && rest[n + 3] == '-'
      && rest[n + 1..n + 3] == mm && rest[n + 4..] == dd
  {
  }

  lemma ParseFromFields(s: string, sign: string, rest: string, n: nat, mm: string, dd: string, date: Date)
    requires var signed := |s| >= 1 && (s[0] == '+' || s[0] == '-');
      (if signed then s[..1] else "") == sign && (if signed then s[1..] else s) == rest
    requires DigitRun(rest) == n && |rest| == n + 6 && rest[n] == '-' && rest[n + 3] == '-'
    requires rest[n + 1..n + 3] == mm && rest[n + 4..] == dd
    requires ParseYear(sign, rest[..n]) == Some(date.year)
    requires ParseTwoDigits(mm) == Some(date.month) && ParseTwoDigits(dd) == Some(date.day)
    requires Valid(date)
    ensures ParseIsoDate(s) == Some(date)
  {
  }

  // ---------------------------------------------------------------------------------------
  // What an accepted text looks like

  /** Every text ParseIsoDate accepts is an optional sign, four to ten year digits, '-', two
      month digits, '-' and two day digits, and those fields are the date's year, month and
      day. ParseAssembled is the converse. */
  lemma ParsedFields(s: string) returns (sign: string, digits: string, mm: string, dd: string)
    requires ParseIsoDate(s).Some?
    ensures s == sign + digits + "-" + mm + "-" + dd
    ensures sign == "" || sign == "+" || sign == "-"
    ensures AllDigits(digits) && 4 <= |digits| <= 10
    ensures |mm| == 2 && AllDigits(mm) && |dd| == 2 && AllDigits(dd)
    ensures var d := ParseIsoDate(s).value;
      ParseYear(sign, digits) == Some(d.year) && ParseTwoDigits(mm) == Some(d.month)
      && ParseTwoDigits(dd) == Some(d.day)
  {
    var signed := |s| >= 1 && (s[0] == '+' || s[0] == '-');
    sign := if signed then s[..1] else "";
    var rest := if signed then s[1..] else s;
    var n := DigitRun(rest);
    digits, mm, dd := rest[..n], rest[n + 1..n + 3], rest[n + 4..];
    AcceptedParts(s, sign, rest, n);
    SignThenRest(s);
    Reassembled(s, sign, rest, n);
    TwoDigitFields(mm);
    TwoDigitFields(dd);
  }

  /** What ParseIsoDate checked of the text's pieces when it accepted it. */
  lemma AcceptedParts(s: string, sign: string, rest: string, n: nat)
    requires ParseIsoDate(s).Some?
    requires var signed := |s| >= 1 && (s[0] == '+' || s[0] == '-');
      sign == (if signed then s[..1] else "") && rest == (if signed then s[1..] else s)
    requires n == DigitRun(rest)
    ensures |rest| == n + 6 && rest[n] == '-' && rest[n + 3] == '-'
    ensures var d := ParseIsoDate(s).value;
      ParseYear(sign, rest[..n]) == Some(d.year) && ParseTwoDigits(rest[n + 1..n + 3]) == Some(d.month)
      && ParseTwoDigits(rest[n + 4..]) == Some(d.day)
  {
  }

  lemma SignThenRest(s: string)
    ensures var signed := |s| >= 1 && (s[0] == '+' || s[0] == '-');
      s == (if signed then s[..1] else "") + (if signed then s[1..] else s)
  {
  }

  lemma Reassembled(s: string, sign: string, rest: string, n: nat)
    requires s == sign + rest && |rest| == n + 6 && rest[n] == '-' && rest[n + 3] == '-'
    ensures s == sign + rest[..n] + "-" + rest[n + 1..n + 3] + "-" + rest[n + 4..]
  {
    assert rest == rest[..n] + "-" + rest[n + 1..n + 3] + "-" + rest[n + 4..];
  }

  lemma TwoDigitFields(t: string)
    requires ParseTwoDigits(t).Some?
    ensures |t| == 2 && AllDigits(t)
  {
  }

  // ---------------------------------------------------------------------------------------
  // The texts the calculator's tests use

  lemma ParsesPlainDate()
    ensures ParseIsoDate("2024-01-01") == Some(Date(2024, 1, 1))
  {
    ParseFormatRoundTrip(Date(2024, 1, 1));
    assert FormatIso(Date(2024, 1, 1)) == "2024-01-01";
  }
}
