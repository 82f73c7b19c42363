/** The date calculator of the earlier revision (the root-package `CalcDateMacro`). It reads
    date, amount and unit as the current one does, but decides lenient mode from the `mode` key
    alone, prints an absent format as the text "null" and compiles that as a pattern, runs all
    coercions before reporting the first failure, and answers "NaD" for an unknown operation. */
module LegacyCalcDate {

  import opened Optional
  import opened Directive
  import opened Dates
  import opened IsoDates
  import opened CalcDate

  /** `getFormat`: `String.valueOf` of the format attribute compiled as a pattern; when that
      fails, ISO_DATE in lenient mode and nothing in strict mode. */
  function GetFormat(patterns: Patterns, attributes: AttrMap, lenient: bool): (r: Option<Formatter>)
    ensures var text := ValueOf(GetRawTargetFormat(attributes));
      && (patterns.compiles(text) ==> r == Some(Pattern(text)))
      && (!patterns.compiles(text) ==> r == (if lenient then Some(IsoDate) else None))
  {
    var text := ValueOf(NamedOrPositional(attributes, TARGET_FORMAT, TARGET_FORMAT_ATTRIBUTE_POSITION));
    if patterns.compiles(text) then Some(Pattern(text))
    else if lenient then Some(IsoDate)
    else None
  }

  /** What `calculate(operation, attributes)` returns on a day whose date is `today`. */
  function Result(operation: string, attributes: AttrMap, patterns: Patterns, today: Date): (r: Outcome)
    requires Valid(today)
    ensures r.Thrown? ==> operation == SUM || operation == SUB
    ensures operation != SUM && operation != SUB ==>
      r.Returned? && r.text in {NOT_A_DATE, NOT_A_NUMBER, NOT_A_FORMAT}
    ensures IgnoreInvalid(attributes) && operation != SUM && operation != SUB ==> r == Returned(NOT_A_DATE)
  {
    var lenient := IgnoreInvalid(attributes);
    var date := GetDate(attributes, lenient, today);
    var amount := GetAmount(attributes, lenient);
    var formatter := GetFormat(patterns, attributes, lenient);
    var unit := GetTemporalUnit(attributes);
    if date.None? then Returned(NOT_A_DATE)
    else if amount.None? then Returned(NOT_A_NUMBER)
    else if formatter.None? then Returned(NOT_A_FORMAT)
    else if operation == SUM then Print(patterns, formatter.value, Plus(date.value, amount.value, unit))
    else if operation == SUB then Print(patterns, formatter.value, Minus(date.value, amount.value, unit))
    else Returned(NOT_A_DATE)
  }

  /** The failures are reported in the order date ("NaD"), amount ("NaN"), format ("NaF"), and
      an operation other than sum and sub is reported as "NaD" as well. */
  lemma CheckOrder(operation: string, attributes: AttrMap, patterns: Patterns, today: Date)
    requires Valid(today)
    ensures var lenient := IgnoreInvalid(attributes);
      GetDate(attributes, lenient, today).None? ==> Result(operation, attributes, patterns, today) == Returned(NOT_A_DATE)
    ensures var lenient := IgnoreInvalid(attributes);
      GetDate(attributes, lenient, today).Some? && GetAmount(attributes, lenient).None? ==>
        Result(operation, attributes, patterns, today) == Returned(NOT_A_NUMBER)
    ensures var lenient := IgnoreInvalid(attributes);
      GetDate(attributes, lenient, today).Some? && GetAmount(attributes, lenient).Some?
      && !lenient && !patterns.compiles(ValueOf(GetRawTargetFormat(attributes))) ==>
        Result(operation, attributes, patterns, today) == Returned(NOT_A_FORMAT)
    ensures var lenient := IgnoreInvalid(attributes);
      GetDate(attributes, lenient, today).Some? && GetAmount(attributes, lenient).Some?
      && (lenient || patterns.compiles(ValueOf(GetRawTargetFormat(attributes))))
      && operation != SUM && operation != SUB ==>
        Result(operation, attributes, patterns, today) == Returned(NOT_A_DATE)
  {
  }

  /** With no format attribute the text "null" is compiled as a pattern. java.time rejects it
      ('l' is no pattern letter), and then strict mode answers "NaF" even though no format was
      asked for, while lenient mode prints ISO. */
  lemma AbsentFormatIsNullPattern(operation: string, attributes: AttrMap, patterns: Patterns, today: Date)
    requires Valid(today) && GetRawTargetFormat(attributes).None? && !patterns.compiles("null")
    ensures var lenient := IgnoreInvalid(attributes);
      GetFormat(patterns, attributes, lenient) == if lenient then Some(IsoDate) else None
    ensures var lenient := IgnoreInvalid(attributes);
      !lenient && GetDate(attributes, lenient, today).Some? && GetAmount(attributes, lenient).Some? ==>
        Result(operation, attributes, patterns, today) == Returned(NOT_A_FORMAT)
  {
  }

  /** Where the two revisions read the same attributes — a format is given and no fourth
      positional attribute could stand for `mode` — they print the same for sum and sub. */
  lemma AgreesWithCurrentRevision(operation: string, attributes: AttrMap, patterns: Patterns, today: Date)
    requires Valid(today) && (operation == SUM || operation == SUB)
    requires MODE_ATTRIBUTE_POSITION !in attributes && GetRawTargetFormat(attributes).Some?
    ensures Result(operation, attributes, patterns, today) == CalcDate.Result(operation, attributes, patterns, today)
  {
    assert IgnoreInvalid(attributes) == Lenient(attributes);
    var lenient := Lenient(attributes);
    var raw := GetRawTargetFormat(attributes);
    assert GetFormat(patterns, attributes, lenient) == GetTargetFormat(patterns, raw, lenient);
  }
}
