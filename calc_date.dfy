/** The date calculator `calc_date:sum[date, value, format, mode]` / `sub` of the current
    revision: it shifts a date by an amount of days, months or years and prints the result.
    Each attribute is read by name, or by its position when the name is absent. Strict mode
    reports the first unusable attribute (date, then amount, then format, then operator);
    lenient mode substitutes today, zero and the ISO format. */
module CalcDate {

  import opened Optional
  import opened Text
  import opened Directive
  import opened Dates
  import opened IsoDates

  // Positions of the attributes and the unit suffixes
  const DATE_ATTRIBUTE_POSITION := "1"
  const AMOUNT_ATTRIBUTE_POSITION := "2"
  const TARGET_FORMAT_ATTRIBUTE_POSITION := "3"
  const MODE_ATTRIBUTE_POSITION := "4"
  const DAY := 'd'
  const MONTH := 'm'
  const YEAR := 'y'

  /** The pattern side of `java.time.format.DateTimeFormatter`: whether
      `ofPattern(pattern, Locale.ENGLISH)` accepts a pattern, and what the compiled pattern
      prints for a date (None where formatting throws, e.g. for a time field). */
  datatype Patterns = Patterns(compiles: string -> bool, render: (string, Date) -> Option<string>)

  /** The formatters the calculator can end up with. */
  datatype Formatter = IsoLocalDate | IsoDate | Pattern(pattern: string)

  /** `formatter.format(date)`: both ISO formatters print a LocalDate as yyyy-MM-dd. */
  function Format(patterns: Patterns, formatter: Formatter, d: Date): Option<string>
    requires Valid(d)
  {
    match formatter
    case Pattern(p) => patterns.render(p, d)
    case _ => Some(FormatIso(d))
  }

  // ---------------------------------------------------------------------------------------
  // Reading the attributes

  /** `ignoreInvalid`: mode by name, else the fourth positional attribute, must be
      "ignore_invalid". */
  function Lenient(attributes: AttrMap): (r: bool)
    ensures MODE in attributes ==> (r <==> attributes[MODE] == Some(IGNORE_INVALID))
    ensures MODE !in attributes ==>
      (r <==> MODE_ATTRIBUTE_POSITION in attributes && attributes[MODE_ATTRIBUTE_POSITION] == Some(IGNORE_INVALID))
  {
    var mode := NamedOrPositional(attributes, MODE, MODE_ATTRIBUTE_POSITION);
    mode.Some? && IGNORE_INVALID == mode.value
  }

  /** `getDate`: the date attribute parsed as yyyy-MM-dd; when it is null or does not parse,
      today in lenient mode and nothing in strict mode. */
  function GetDate(attributes: AttrMap, lenient: bool, today: Date): (r: Option<Date>)
    requires Valid(today)
    ensures r.Some? ==> Valid(r.value)
    ensures lenient ==> r.Some?
  {
    var text := NamedOrPositional(attributes, DATE, DATE_ATTRIBUTE_POSITION);
    var parsed := if text.Some? then ParseIsoDate(text.value) else None;
    if parsed.Some? then parsed
    else if lenient then Some(today)
    else None
  }

  /** The value text ends with one of the unit letters d, m, y. */
  predicate HasUnitSuffix(valueString: string) {
    |valueString| >= 1 && valueString[|valueString| - 1] in {DAY, MONTH, YEAR}
  }

  /** `getLong`: `Long.parseLong`, or 0 in lenient mode and nothing in strict mode when that
      throws. */
  function GetLong(rawValue: string, lenient: bool): (r: Option<int>)
    ensures r.Some? ==> LONG_MIN <= r.value <= LONG_MAX
    ensures ParseLong(rawValue).Some? ==> r == ParseLong(rawValue)
    ensures ParseLong(rawValue).None? ==> (r.Some? <==> lenient) && (lenient ==> r.value == 0)
  {
    match ParseLong(rawValue)
    case Some(v) => Some(v)
    case None => if lenient then Some(0) else None
  }

  /** The amount text `getAmount` parses: the value without its unit letter. */
  function AmountText(valueString: string): (t: string)
    ensures HasUnitSuffix(valueString) ==> valueString == t + [valueString[|valueString| - 1]]
    ensures !HasUnitSuffix(valueString) ==> t == valueString
  {
    if HasUnitSuffix(valueString) then valueString[..|valueString| - 1] else valueString
  }

  /** The value attribute as `String.valueOf` prints it (a null prints as "null"). */
  function ValueString(attributes: AttrMap): string {
    ValueOf(NamedOrPositional(attributes, VALUE, AMOUNT_ATTRIBUTE_POSITION))
  }

  /** `getAmount`. */
  function GetAmount(attributes: AttrMap, lenient: bool): (r: Option<int>)
    ensures r.Some? ==> LONG_MIN <= r.value <= LONG_MAX
  {
    GetLong(AmountText(ValueString(attributes)), lenient)
  }

  /** The switch of `getTemporalUnit` on the value's unit letter: y years, m months, anything
      else (d, or no letter) days. */
  function UnitOf(valueString: string): (unit: Unit)
    ensures unit == Years <==> |valueString| >= 1 && valueString[|valueString| - 1] == YEAR
    ensures unit == Months <==> |valueString| >= 1 && valueString[|valueString| - 1] == MONTH
  {
    if HasUnitSuffix(valueString) then
      var letter := valueString[|valueString| - 1];
      if letter == YEAR then Years else if letter == MONTH then Months else Days
    else Days
  }

  /** `getTemporalUnit`: the unit the value's last letter names, days by default. */
  function GetTemporalUnit(attributes: AttrMap): (unit: Unit)
    ensures var v := ValueString(attributes);
      && (unit == Years <==> |v| >= 1 && v[|v| - 1] == YEAR)
      && (unit == Months <==> |v| >= 1 && v[|v| - 1] == MONTH)
  {
    UnitOf(ValueString(attributes))
  }

  /** `getRawTargetFormat`: the format attribute, null when absent or null. */
  function GetRawTargetFormat(attributes: AttrMap): (r: Option<string>)
    ensures TARGET_FORMAT in attributes ==> r == attributes[TARGET_FORMAT]
    ensures TARGET_FORMAT !in attributes && TARGET_FORMAT_ATTRIBUTE_POSITION in attributes ==>
      r == attributes[TARGET_FORMAT_ATTRIBUTE_POSITION]
    ensures TARGET_FORMAT !in attributes && TARGET_FORMAT_ATTRIBUTE_POSITION !in attributes ==> r == None
  {
    NamedOrPositional(attributes, TARGET_FORMAT, TARGET_FORMAT_ATTRIBUTE_POSITION)
  }

  /** `getTargetFormat`: the compiled pattern; when it is null or does not compile, ISO_DATE in
      lenient mode and nothing in strict mode. */
  function GetTargetFormat(patterns: Patterns, rawFormat: Option<string>, lenient: bool): (r: Option<Formatter>)
    ensures rawFormat.Some? && patterns.compiles(rawFormat.value) ==> r == Some(Pattern(rawFormat.value))
    ensures (rawFormat.None? || !patterns.compiles(rawFormat.value)) ==> r == (if lenient then Some(IsoDate) else None)
  {
    if rawFormat.Some? && patterns.compiles(rawFormat.value) then Some(Pattern(rawFormat.value))
    else if lenient then Some(IsoDate)
    else None
  }

  // ---------------------------------------------------------------------------------------
  // calculate

  /** `formatter.format(shifted)`, where a failed shift or a failed format is an exception. */
  function Print(patterns: Patterns, formatter: Formatter, shifted: Option<Date>): (r: Outcome)
    requires shifted.Some? ==> Valid(shifted.value)
    ensures r.Returned? <==> shifted.Some? && Format(patterns, formatter, shifted.value).Some?
    ensures r.Returned? ==> Some(r.text) == Format(patterns, formatter, shifted.value)
    ensures !formatter.Pattern? ==> (r.Returned? <==> shifted.Some?)
  {
    match shifted
    case None => Thrown
    case Some(d) =>
      match Format(patterns, formatter, d)
      case None => Thrown
      case Some(text) => Returned(text)
  }

  /** What `calculate(operation, attributes)` returns on a day whose date is `today`. */
  function Result(operation: string, attributes: AttrMap, patterns: Patterns, today: Date): (r: Outcome)
    requires Valid(today)
    ensures operation != SUM && operation != SUB ==>
      r.Returned? && r.text in {NOT_A_DATE, NOT_A_NUMBER, NOT_A_FORMAT, NOT_AN_OPERATION}
    ensures operation != SUM && operation != SUB && Lenient(attributes) ==> r == Returned(NOT_AN_OPERATION)
  {
    var lenient := Lenient(attributes);
    var date := GetDate(attributes, lenient, today);
    if date.None? then Returned(NOT_A_DATE)
    else
      var amount := GetAmount(attributes, lenient);
      if amount.None? then Returned(NOT_A_NUMBER)
      else
        var rawFormat := GetRawTargetFormat(attributes);
        var format := GetTargetFormat(patterns, rawFormat, lenient);
        if !lenient && format.None? && rawFormat.Some? then Returned(NOT_A_FORMAT)
        else
          var formatter := format.GetOr(IsoLocalDate);
          var unit := GetTemporalUnit(attributes);
          if operation == SUM then Print(patterns, formatter, Plus(date.value, amount.value, unit))
          else if operation == SUB then Print(patterns, formatter, Minus(date.value, amount.value, unit))
          else Returned(NOT_AN_OPERATION)
  }

  // ---------------------------------------------------------------------------------------
  // The order of the checks

  /** The checks run in a fixed order and the first failure wins: an unusable date gives
      "NaD", then an unusable amount "NaN", then (strict mode only) a format given but not
      compiling "NaF", then an operator other than sum and sub "NaO". */
  lemma CheckOrder(operation: string, attributes: AttrMap, patterns: Patterns, today: Date)
    requires Valid(today)
    ensures var lenient := Lenient(attributes);
      GetDate(attributes, lenient, today).None? ==> Result(operation, attributes, patterns, today) == Returned(NOT_A_DATE)
    ensures var lenient := Lenient(attributes);
      GetDate(attributes, lenient, today).Some? && GetAmount(attributes, lenient).None? ==>
        Result(operation, attributes, patterns, today) == Returned(NOT_A_NUMBER)
    ensures var lenient := Lenient(attributes); var raw := GetRawTargetFormat(attributes);
      GetDate(attributes, lenient, today).Some? && GetAmount(attributes, lenient).Some?
      && !lenient && raw.Some? && !patterns.compiles(raw.value) ==>
        Result(operation, attributes, patterns, today) == Returned(NOT_A_FORMAT)
    ensures var lenient := Lenient(attributes); var raw := GetRawTargetFormat(attributes);
      GetDate(attributes, lenient, today).Some? && GetAmount(attributes, lenient).Some?
      && (lenient || raw.None? || patterns.compiles(raw.value)) && operation != SUM && operation != SUB ==>
        Result(operation, attributes, patterns, today) == Returned(NOT_AN_OPERATION)
  {
  }

  /** Lenient mode never reports an attribute: a bad date becomes today, a bad amount zero and
      a missing or bad format ISO; only the operator can still be refused, and without a
      compiling pattern the text printed is a date in ISO form. */
  lemma LenientReportsOnlyOperator(operation: string, attributes: AttrMap, patterns: Patterns, today: Date)
    requires Valid(today) && Lenient(attributes)
    ensures GetDate(attributes, true, today).Some? && GetAmount(attributes, true).Some?
    ensures GetTargetFormat(patterns, GetRawTargetFormat(attributes), true).Some?
    ensures operation != SUM && operation != SUB ==>
      Result(operation, attributes, patterns, today) == Returned(NOT_AN_OPERATION)
    ensures var raw := GetRawTargetFormat(attributes);
      (operation == SUM || operation == SUB) && (raw.None? || !patterns.compiles(raw.value)) ==>
        match Result(operation, attributes, patterns, today)
        case Thrown => true
        case Returned(text) => ParseIsoDate(text).Some?
  {
    var r := Result(operation, attributes, patterns, today);
    var raw := GetRawTargetFormat(attributes);
    if (operation == SUM || operation == SUB) && (raw.None? || !patterns.compiles(raw.value)) && r.Returned? {
      var date, amount, unit := GetDate(attributes, true, today).value, GetAmount(attributes, true).value, GetTemporalUnit(attributes);
      var shifted := if operation == SUM then Plus(date, amount, unit) else Minus(date, amount, unit);
      ParseFormatRoundTrip(shifted.value);
    }
  }

  // ---------------------------------------------------------------------------------------
  // The amount and its unit

  /** The letter that selects a unit. */
  function UnitLetter(unit: Unit): (c: char)
    ensures c in {DAY, MONTH, YEAR}
  {
    match unit
    case Days => DAY
    case Months => MONTH
    case Years => YEAR
  }

  /** An amount written as a long followed by a unit letter reads back as that amount in that
      unit; written without a letter it reads back as that amount of days. */
  lemma AmountRoundTrip(v: int, unit: Unit, lenient: bool)
    requires LONG_MIN <= v <= LONG_MAX
    ensures var text := IntToString(v) + [UnitLetter(unit)];
      GetLong(AmountText(text), lenient) == Some(v) && UnitOf(text) == unit
    ensures GetLong(AmountText(IntToString(v)), lenient) == Some(v) && UnitOf(IntToString(v)) == Days
  {
    ParseIntegerRoundTrip(v);
    IntToStringEndsInDigit(v);
    LetterStripped(IntToString(v), unit);
  }

  /** A unit letter after digits is stripped and selects its unit; digits alone are days. */
  lemma LetterStripped(digits: string, unit: Unit)
    requires |digits| >= 1 && IsDigit(digits[|digits| - 1])
    ensures AmountText(digits + [UnitLetter(unit)]) == digits && UnitOf(digits + [UnitLetter(unit)]) == unit
    ensures AmountText(digits) == digits && UnitOf(digits) == Days
  {
    var text := digits + [UnitLetter(unit)];
    assert text[..|text| - 1] == digits;
  }

  /** A value without a known amount: strict mode rejects "1w" (w is no unit letter) and "oney"
      (y is stripped, "one" is no number); lenient mode reads "x" as zero. */
  lemma AmountExamples()
    ensures GetLong(AmountText("1w"), false) == None
    ensures GetLong(AmountText("oney"), false) == None
    ensures GetLong(AmountText("x"), true) == Some(0)
  {
    assert !IsDigit('w');
    assert AmountText("oney") == "one" && !IsDigit('o');
    assert !IsDigit('x');
  }

  // ---------------------------------------------------------------------------------------
  // What calculate prints

  /** With a readable date and amount and no format attribute, both modes print the shifted
      date in ISO form: sum shifts forward by the amount in its unit, sub backward. */
  lemma AbsentFormatPrintsIso(operation: string, attributes: AttrMap, patterns: Patterns, today: Date)
    requires Valid(today) && (operation == SUM || operation == SUB)
    requires GetDate(attributes, Lenient(attributes), today).Some? && GetAmount(attributes, Lenient(attributes)).Some?
    requires GetRawTargetFormat(attributes).None?
    ensures var lenient := Lenient(attributes);
      var date, amount := GetDate(attributes, lenient, today).value, GetAmount(attributes, lenient).value;
      var shifted := (if operation == SUM then Plus(date, amount, GetTemporalUnit(attributes))
                      else Plus(date, -amount, GetTemporalUnit(attributes)));
      Result(operation, attributes, patterns, today)
        == if shifted.Some? then Returned(FormatIso(shifted.value)) else Thrown
  {
    var lenient := Lenient(attributes);
    var formatter := GetTargetFormat(patterns, GetRawTargetFormat(attributes), lenient).GetOr(IsoLocalDate);
    var date, amount := GetDate(attributes, lenient, today).value, GetAmount(attributes, lenient).value;
    var unit := GetTemporalUnit(attributes);
    var shifted := if operation == SUM then Plus(date, amount, unit) else Minus(date, amount, unit);
    Dispatch(operation, attributes, patterns, today);
    PrintIso(patterns, formatter, shifted);
  }

  /** Past the checks, `calculate` prints the shifted date with the formatter it settled on:
      the given pattern when it compiles, otherwise ISO. */
  lemma Dispatch(operation: string, attributes: AttrMap, patterns: Patterns, today: Date)
    requires Valid(today) && (operation == SUM || operation == SUB)
    requires GetDate(attributes, Lenient(attributes), today).Some? && GetAmount(attributes, Lenient(attributes)).Some?
    requires var raw := GetRawTargetFormat(attributes);
      Lenient(attributes) || raw.None? || patterns.compiles(raw.value)
    ensures var lenient := Lenient(attributes);
      var date, amount := GetDate(attributes, lenient, today).value, GetAmount(attributes, lenient).value;
      var unit := GetTemporalUnit(attributes);
      var formatter := GetTargetFormat(patterns, GetRawTargetFormat(attributes), lenient).GetOr(IsoLocalDate);
      Result(operation, attributes, patterns, today)
        == Print(patterns, formatter, if operation == SUM then Plus(date, amount, unit) else Minus(date, amount, unit))
  {
  }

  /** With a readable date and amount and a format whose pattern compiles, both modes print
      the shifted date through that pattern; a failed shift or a failed rendering throws. */
  lemma GivenPatternPrints(operation: string, attributes: AttrMap, patterns: Patterns, today: Date)
    requires Valid(today) && (operation == SUM || operation == SUB)
    requires GetDate(attributes, Lenient(attributes), today).Some? && GetAmount(attributes, Lenient(attributes)).Some?
    requires GetRawTargetFormat(attributes).Some? && patterns.compiles(GetRawTargetFormat(attributes).value)
    ensures var lenient := Lenient(attributes);
      var date, amount := GetDate(attributes, lenient, today).value, GetAmount(attributes, lenient).value;
      var shifted := (if operation == SUM then Plus(date, amount, GetTemporalUnit(attributes))
                      else Plus(date, -amount, GetTemporalUnit(attributes)));
      var p := GetRawTargetFormat(attributes).value;
      Result(operation, attributes, patterns, today)
        == if shifted.Some? && patterns.render(p, shifted.value).Some? then Returned(patterns.render(p, shifted.value).value)
           else Thrown
  {
    Dispatch(operation, attributes, patterns, today);
  }

  /** The ISO formatters print every date. */
  lemma PrintIso(patterns: Patterns, formatter: Formatter, shifted: Option<Date>)
    requires !formatter.Pattern? && (shifted.Some? ==> Valid(shifted.value))
    ensures Print(patterns, formatter, shifted) == if shifted.Some? then Returned(FormatIso(shifted.value)) else Thrown
  {
  }

  /** The directive's map for a date and a value given by name. */
  function DateAndValue(date: string, value: string): AttrMap {
    map[DATE := Some(date), VALUE := Some(value)]
  }

  /** What the calculator reads from such a map: strict mode, no format, the date and the
      value. */
  lemma DateAndValueReads(date: string, value: string, today: Date)
    requires Valid(today)
    ensures var m := DateAndValue(date, value);
      && !Lenient(m) && GetRawTargetFormat(m).None? && ValueString(m) == value
      && NamedOrPositional(m, DATE, DATE_ATTRIBUTE_POSITION) == Some(date)
      && (ParseIsoDate(date).Some? ==> GetDate(m, false, today) == ParseIsoDate(date))
  {
    var m := DateAndValue(date, value);
    assert MODE !in m && MODE_ATTRIBUTE_POSITION !in m;
    assert TARGET_FORMAT !in m && TARGET_FORMAT_ATTRIBUTE_POSITION !in m;
  }

  /** A strict sum or sub, with no format, of an amount with a unit letter prints the date
      shifted forward or backward in that unit. */
  lemma Shifts(operation: string, m: AttrMap, d: Date, n: int, unit: Unit, patterns: Patterns, today: Date)
    requires Valid(d) && Valid(today) && LONG_MIN <= n <= LONG_MAX && (operation == SUM || operation == SUB)
    requires !Lenient(m) && GetRawTargetFormat(m).None? && GetDate(m, false, today) == Some(d)
    requires ValueString(m) == IntToString(n) + [UnitLetter(unit)]
    ensures var shifted := Plus(d, if operation == SUM then n else -n, unit);
      Result(operation, m, patterns, today) == if shifted.Some? then Returned(FormatIso(shifted.value)) else Thrown
  {
    AmountRoundTrip(n, unit, false);
    AbsentFormatPrintsIso(operation, m, patterns, today);
  }

  /** A date written in ISO form, with a value, in strict mode and without a format. */
  lemma DateAndValueShifts(operation: string, date: string, value: string, d: Date, n: int, unit: Unit,
                           patterns: Patterns, today: Date)
    requires Valid(d) && Valid(today) && LONG_MIN <= n <= LONG_MAX && (operation == SUM || operation == SUB)
    requires date == FormatIso(d) && value == IntToString(n) + [UnitLetter(unit)]
    ensures var shifted := Plus(d, if operation == SUM then n else -n, unit);
      Result(operation, DateAndValue(date, value), patterns, today)
        == if shifted.Some? then Returned(FormatIso(shifted.value)) else Thrown
  {
    ParseFormatRoundTrip(d);
    DateAndValueReads(date, value, today);
    Shifts(operation, DateAndValue(date, value), d, n, unit, patterns, today);
  }

  /** Adding n days and subtracting them again prints the starting date: feeding the text a
      sum prints back into a sub with the same amount restores it. */
  lemma SumThenSubRestores(d: Date, n: int, patterns: Patterns, today: Date)
    requires Valid(d) && Valid(today) && LONG_MIN <= n <= LONG_MAX
    requires Result(SUM, DateAndValue(FormatIso(d), IntToString(n) + "d"), patterns, today).Returned?
    ensures var shifted := Result(SUM, DateAndValue(FormatIso(d), IntToString(n) + "d"), patterns, today).text;
      Result(SUB, DateAndValue(shifted, IntToString(n) + "d"), patterns, today) == Returned(FormatIso(d))
  {
    assert [UnitLetter(Days)] == "d";
    var value := IntToString(n) + "d";
    DateAndValueShifts(SUM, FormatIso(d), value, d, n, Days, patterns, today);
    var e := PlusDays(d, n).value;
    DateAndValueShifts(SUB, FormatIso(e), value, e, n, Days, patterns, today);
    PlusDaysRoundTrip(d, n);
  }

  // ---------------------------------------------------------------------------------------
  // Examples

  /** The ISO texts of the dates the examples use, and the first read back. */
  lemma IsoTexts()
    ensures FormatIso(Date(2024, 1, 1)) == "2024-01-01"
    ensures ParseIsoDate("2024-01-01") == Some(Date(2024, 1, 1))
  {
    assert FormatIso(Date(2024, 1, 1)) == "2024-01-01";
    ParseFormatRoundTrip(Date(2024, 1, 1));
  }

  lemma ThirdOfJanuary()
    ensures FormatIso(Date(2024, 1, 3)) == "2024-01-03"
    ensures Plus(Date(2024, 1, 1), 2, Days) == Some(Date(2024, 1, 3))
  {
    assert PlusDays(Date(2024, 1, 1), 2) == Some(Date(2024, 1, 3));
  }

  lemma FirstOfDecember()
    ensures FormatIso(Date(2023, 12, 1)) == "2023-12-01"
    ensures Plus(Date(2024, 1, 1), -1, Months) == Some(Date(2023, 12, 1))
  {
    assert PlusMonths(Date(2024, 1, 1), -1) == Some(Date(2023, 12, 1));
  }

  lemma AmountTexts()
    ensures IntToString(2) + [UnitLetter(Days)] == "2d"
    ensures IntToString(1) + [UnitLetter(Months)] == "1m"
  {
    assert NatToString(2) == "2" && NatToString(1) == "1";
  }

  /** 2024-01-01 plus "2d" is 2024-01-03. */
  lemma SumTwoDays(patterns: Patterns, today: Date, date: string, value: string)
    requires Valid(today) && date == "2024-01-01" && value == "2d"
    ensures Result(SUM, DateAndValue(date, value), patterns, today) == Returned("2024-01-03")
  {
    IsoTexts();
    ThirdOfJanuary();
    AmountTexts();
    DateAndValueShifts(SUM, date, value, Date(2024, 1, 1), 2, Days, patterns, today);
  }

  /** 2024-01-01 minus "1m" is 2023-12-01. */
  lemma SubOneMonth(patterns: Patterns, today: Date, date: string, value: string)
    requires Valid(today) && date == "2024-01-01" && value == "1m"
    ensures Result(SUB, DateAndValue(date, value), patterns, today) == Returned("2023-12-01")
  {
    IsoTexts();
    FirstOfDecember();
    AmountTexts();
    DateAndValueShifts(SUB, date, value, Date(2024, 1, 1), 1, Months, patterns, today);
  }

  /** A date, a value and a format. */
  function DateValueFormat(date: string, value: string, format: string): AttrMap {
    map[DATE := Some(date), VALUE := Some(value), TARGET_FORMAT := Some(format)]
  }

  /** 2024-01-01 plus "2d" with the format "d MMM yy" is that pattern's text of 2024-01-03 (the
      pattern language is a parameter here, so the text itself, "3 Jan 24", is not derived). */
  lemma SumTwoDaysInPattern(patterns: Patterns, today: Date, date: string, value: string, format: string)
    requires Valid(today) && date == "2024-01-01" && value == "2d" && format == "d MMM yy"
    requires patterns.compiles(format)
    ensures var printed := patterns.render(format, Date(2024, 1, 3));
      Result(SUM, DateValueFormat(date, value, format), patterns, today)
        == if printed.Some? then Returned(printed.value) else Thrown
  {
    var m := DateValueFormat(date, value, format);
    assert MODE !in m && MODE_ATTRIBUTE_POSITION !in m;
    IsoTexts();
    ThirdOfJanuary();
    AmountTexts();
    AmountRoundTrip(2, Days, false);
    assert GetDate(m, false, today) == Some(Date(2024, 1, 1));
    GivenPatternPrints(SUM, m, patterns, today);
  }

  /** Strict mode: a date in another layout is "NaD". */
  lemma SlashedDateIsNotADate(patterns: Patterns, today: Date, date: string, value: string)
    requires Valid(today) && date == "2024/01/01" && value == "2d"
    ensures Result(SUM, DateAndValue(date, value), patterns, today) == Returned(NOT_A_DATE)
  {
    SlashedIsNotIso(date);
    DateAndValueReads(date, value, today);
  }

  lemma SlashedIsNotIso(date: string)
    requires date == "2024/01/01"
    ensures ParseIsoDate(date) == None
  {
    DigitRunStops("2024", "/01/01", date);
  }

  /** Strict mode: an amount with an unknown unit letter is "NaN". */
  lemma WeeksAreNotANumber(patterns: Patterns, today: Date)
    requires Valid(today)
    ensures Result(SUM, DateAndValue("2024-01-01", "1w"), patterns, today) == Returned(NOT_A_NUMBER)
  {
    AmountExamples();
    IsoTexts();
    DateAndValueReads("2024-01-01", "1w", today);
  }

  /** An operator other than sum and sub is "NaO", multiply included. */
  lemma MultiplyIsNotAnOperation(patterns: Patterns, today: Date)
    requires Valid(today)
    ensures Result(MULTIPLY, DateAndValue("2024-01-01", "2d"), patterns, today) == Returned(NOT_AN_OPERATION)
  {
    assert IntToString(2) + [UnitLetter(Days)] == "2d";
    AmountRoundTrip(2, Days, false);
    IsoTexts();
    DateAndValueReads("2024-01-01", "2d", today);
  }

  /** What the calculator reads from a date and a value in lenient mode. */
  lemma LenientDateAndValueReads(date: string, value: string)
    ensures var m := DateAndValue(date, value)[MODE := Some(IGNORE_INVALID)];
      && Lenient(m) && GetRawTargetFormat(m).None? && ValueString(m) == value
      && NamedOrPositional(m, DATE, DATE_ATTRIBUTE_POSITION) == Some(date)
  {
    var m := DateAndValue(date, value)[MODE := Some(IGNORE_INVALID)];
    assert TARGET_FORMAT !in m && TARGET_FORMAT_ATTRIBUTE_POSITION !in m;
  }

  /** Lenient mode reads an unreadable amount as zero and prints the date unchanged. */
  lemma LenientUnreadableAmountKeepsDate(patterns: Patterns, today: Date)
    requires Valid(today)
    ensures Result(SUM, DateAndValue("2024-01-01", "x")[MODE := Some(IGNORE_INVALID)], patterns, today)
      == Returned("2024-01-01")
  {
    var d := Date(2024, 1, 1);
    AmountExamples();
    IsoTexts();
    LenientDateAndValueReads("2024-01-01", "x");
    var m := DateAndValue("2024-01-01", "x")[MODE := Some(IGNORE_INVALID)];
    assert GetDate(m, true, today) == Some(d);
    assert GetAmount(m, true) == Some(0);
    AbsentFormatPrintsIso(SUM, m, patterns, today);
  }
}
