# Calculation directives for AsciidoctorJ, in Dafny

The repository adds three inline macros to AsciidoctorJ documents:

- `calc:sum[...]` and its siblings `sub`, `multiply` and `divide` fold an arithmetic operator over
  the directive's numeric attributes. The result is printed with two fraction digits, rounded
  toward +infinity.
- `calc_date:sum[date, value, format, mode]` and `calc_date:sub[...]` shift a date by an amount of
  days, months or years. The result is printed in ISO form or in a given pattern.
- `calc_exp:[exp, author, calc_exp_license_type]` evaluates an expression with the mXParser
  library. The library's licence must first be confirmed for a named author.

Each macro answers with a short sentinel instead of a value when an attribute is unusable:

| sentinel | meaning |
|---|---|
| `NaN` | not a number |
| `NaO` | not an operation |
| `NaVM` | not valid math |
| `NaD` | not a date |
| `NaF` | not a format |
| `NaE` | not an expression |
| `NaA` | not an author |
| `NaVA` | not a valid author |
| `NaL` | not a licence |

`mode=ignore_invalid` makes the arithmetic and date macros lenient:
- the arithmetic macro skips unusable operands;
- the date macro substitutes today, zero and the ISO format.

The repository holds two revisions of each macro: the current one in the `calc`, `calcdate` and
`calcexpression` packages, and an earlier one in the root package. Each revision is its own
Dafny module:

| module | models |
|---|---|
| `Calc`, `LegacyCalc` | the arithmetic macro |
| `CalcDate`, `LegacyCalcDate` | the date macro |
| `CalcExpression`, `LegacyCalcExpression` | the expression macro |

They share these modules:

- `Directive`: the sentinels, the attribute keys and the raw attribute map, with `Map.get`,
  `Map.getOrDefault` and `String.valueOf`. A key present with a null value is `None`.
- `Text`: digits, white space, UTF-16 length, `Integer.parseInt` and `Long.parseLong`, 32-bit
  wrap-around.
- `Decimals`: `BigDecimal` as an unscaled integer and an int scale. It covers the string
  grammar, add, subtract, multiply, exact divide, and `setScale(2, CEILING)`.
- `DecimalText`: `toString` of a scale-2 `BigDecimal`.
- `Dates`: the `LocalDate` calendar. `plusDays`, `plusMonths` and `plusYears` clamp to the
  month's end and fail outside the year range of ±999,999,999.
- `IsoDates`: `ISO_LOCAL_DATE` parsing and printing.
- `MathLicense`: mXParser's licence. It is a class that records each confirmation.

Parts of the program that cannot be seen are parameters:

- The order in which a `HashMap` yields its keys is `order`. The properties quantify over every
  order.
- `LocalDate.now()` is `today`.
- Compiling and rendering a `DateTimeFormatter` pattern is `Patterns`.
- What mXParser computes for an expression is `eval`.

An exception escaping `calculate` is the outcome `Thrown`. The methods that loop or build maps
change no state. Each is proved equal to a specification function: `Calc.Calc`,
`Calc.Calculate`, `CalcExpression.GetAttribute`, `CalcExpression.GetCalculationAttributes`,
`CalcExpression.Calculate`, `LegacyCalcExpression.GetAttribute` and
`LegacyCalcExpression.Process`. The lemmas are stated about those specification functions.
The methods that change state are `License.ConfirmCommercialUse`,
`License.ConfirmNonCommercialUse` and `CalcExpression.ConfirmXParserLicence`. They update
mXParser's licence record. Their ensures give the new record in terms of `old`: the old
confirmations plus the one appended.

## Model

| member | source | states |
|---|---|---|
| Directive.NamedOrPositional | src/main/java/com/lealceldeiro/asciidoc/extensions/calcdate/CalcDateMacro.java:102-103 | An attribute is read by name. Its position is consulted only when the name is absent, and neither gives null |
| Directive.IgnoreInvalid | src/main/java/com/lealceldeiro/asciidoc/extensions/calc/CalcMacro.java:87-90 | Lenient exactly when `mode` is present with the value "ignore_invalid" |
| Text.ParseInt | src/main/java/com/lealceldeiro/asciidoc/extensions/calc/CalcMacro.java:109-116 | `Integer.parseInt` accepts exactly the signed ASCII decimal texts whose value fits 32 bits |
| Text.ParseLong | src/main/java/com/lealceldeiro/asciidoc/extensions/calcdate/CalcDateMacro.java:145-155 | `Long.parseLong` accepts exactly the signed ASCII decimal texts whose value fits 64 bits |
| Text.ParseInteger | src/main/java/com/lealceldeiro/asciidoc/extensions/calcdate/CalcDateMacro.java:148 | A text parses exactly when it is an optional sign followed by at least one ASCII digit (signed ASCII decimal texts) |
| Text.ParseIntegerRoundTrip | src/main/java/com/lealceldeiro/asciidoc/extensions/calcdate/CalcDateMacro.java:148 | The printed form of every integer parses back to it |
| Text.Utf16Length | src/main/java/com/lealceldeiro/asciidoc/extensions/calcexpression/CalcExpressionMacro.java:108 | `String.length` counts between one and two code units per character |
| Text.Wrap32 | src/main/java/com/lealceldeiro/asciidoc/extensions/calc/CalcMacro.java:100 | Java int arithmetic: a result stays in the int range, is unchanged when it fits, and loses 2^32 when it overflows upward |
| Decimals.ParseDecimal | src/main/java/com/lealceldeiro/asciidoc/extensions/calc/CalcMacro.java:118-127 | `new BigDecimal(String)`: what it accepts has an int scale, and the empty text is refused |
| Decimals.Add | src/main/java/com/lealceldeiro/asciidoc/extensions/calc/CalcMacro.java:63 | `BigDecimal.add`: the larger scale. It fails exactly when aligning a non-zero operand overflows the scale |
| Decimals.AddExact | src/main/java/com/lealceldeiro/asciidoc/extensions/calc/CalcMacro.java:63 | A successful sum is exact at every common scale |
| Decimals.SubtractExact | src/main/java/com/lealceldeiro/asciidoc/extensions/calc/CalcMacro.java:66 | A successful difference is exact at every common scale |
| Decimals.Multiply | src/main/java/com/lealceldeiro/asciidoc/extensions/calc/CalcMacro.java:69 | `BigDecimal.multiply`: the product of unscaled values at the sum of the scales. It fails exactly when that scale leaves the int range for a non-zero left operand |
| Decimals.MultiplyExact | src/main/java/com/lealceldeiro/asciidoc/extensions/calc/CalcMacro.java:69 | A successful product is exact |
| Decimals.Divide | src/main/java/com/lealceldeiro/asciidoc/extensions/calc/CalcMacro.java:72 | `BigDecimal.divide`: fails on a zero divisor. Zero divided keeps the preferred scale. Otherwise the scale is at least the preferred one, with no trailing zero beyond it |
| Decimals.DivideExact | src/main/java/com/lealceldeiro/asciidoc/extensions/calc/CalcMacro.java:72 | A successful quotient times the divisor is exactly the dividend |
| Decimals.SetScale2Ceiling | src/main/java/com/lealceldeiro/asciidoc/extensions/calc/CalcMacro.java:78 | `setScale(2, CEILING)` yields scale 2. It throws exactly when a non-zero value would need more than `Integer.MAX_VALUE` new digits |
| Decimals.SetScale2CeilingRoundsUp | src/main/java/com/lealceldeiro/asciidoc/extensions/calc/CalcMacro.java:78 | The result is the least multiple of 0.01 not below the value |
| Decimals.CeilingHundredthsUnique | src/main/java/com/lealceldeiro/asciidoc/extensions/calc/CalcMacro.java:78 | That least multiple is unique |
| DecimalText.RenderHundredths | src/main/java/com/lealceldeiro/asciidoc/extensions/calc/CalcMacro.java:79 | `toString` at scale 2 has a point before the last two digits |
| DecimalText.RenderHundredthsRoundTrip | src/main/java/com/lealceldeiro/asciidoc/extensions/calc/CalcMacro.java:78-79 | The printed result reads back, with `new BigDecimal`, as the same scale-2 value |
| DecimalText.ParsePlain | src/main/java/com/lealceldeiro/asciidoc/extensions/calc/CalcMacro.java:118-127 | `new BigDecimal` reads a plain numeral with a point as its digits at the scale of its fraction length, negated after a '-' |
| DecimalText.ParseDecimalInteger | src/main/java/com/lealceldeiro/asciidoc/extensions/calc/CalcMacro.java:118-127 | `new BigDecimal` reads an integer numeral, as `Long.toString` prints it, as that integer at scale 0 |
| DecimalText.ParseDecimalScientific | src/main/java/com/lealceldeiro/asciidoc/extensions/calc/CalcMacro.java:118-127 | `new BigDecimal` reads an integer numeral followed by "E" and an exponent x as that integer at scale -x, when -x fits an int |
| DecimalText.NoDigitNoNumber | src/main/java/com/lealceldeiro/asciidoc/extensions/calc/CalcMacro.java:118-127 | A text without any ASCII digit is not a decimal, so `getBigDecimal` gives an empty Optional |
| Dates.DaysInMonth | src/main/java/com/lealceldeiro/asciidoc/extensions/calcdate/CalcDateMacro.java:88 | Month lengths: 31 for seven months, 30 for four, and February 29 exactly in leap years |
| Dates.NextDay | src/main/java/com/lealceldeiro/asciidoc/extensions/calcdate/CalcDateMacro.java:88 | The next day is a later valid date. It is missing only after the last supported day |
| Dates.NextDayIsAdjacent | src/main/java/com/lealceldeiro/asciidoc/extensions/calcdate/CalcDateMacro.java:88 | No valid date lies strictly between a date and the next day: `plusDays(1)` moves to the adjacent day |
| Dates.PrevDay | src/main/java/com/lealceldeiro/asciidoc/extensions/calcdate/CalcDateMacro.java:91 | The previous day is an earlier valid date. It is missing only before the first supported day |
| Dates.PrevDayIsAdjacent | src/main/java/com/lealceldeiro/asciidoc/extensions/calcdate/CalcDateMacro.java:91 | No valid date lies strictly between the previous day and a date: `minusDays(1)` moves to the adjacent day |
| Dates.PlusDays | src/main/java/com/lealceldeiro/asciidoc/extensions/calcdate/CalcDateMacro.java:88 | `plusDays` gives a valid date; its movement is stated by `PlusDaysMoves` and `PlusDaysRoundTrip` |
| Dates.NextPrevInverse | src/main/java/com/lealceldeiro/asciidoc/extensions/calcdate/CalcDateMacro.java:88-91 | The next day and the previous day are inverse |
| Dates.PlusDaysRoundTrip | src/main/java/com/lealceldeiro/asciidoc/extensions/calcdate/CalcDateMacro.java:88-91 | Adding n days and then -n days restores the date |
| Dates.PlusDaysMoves | src/main/java/com/lealceldeiro/asciidoc/extensions/calcdate/CalcDateMacro.java:88 | A positive number of days moves later, a negative one earlier |
| Dates.PlusMonths | src/main/java/com/lealceldeiro/asciidoc/extensions/calcdate/CalcDateMacro.java:88 | `plusMonths` moves the month index by m and clamps the day to the month's end. It fails exactly when the year leaves the range |
| Dates.PlusYears | src/main/java/com/lealceldeiro/asciidoc/extensions/calcdate/CalcDateMacro.java:88 | `plusYears` keeps the month, clamps the day, and fails exactly outside the year range |
| Dates.PlusMonthsRoundTrip | src/main/java/com/lealceldeiro/asciidoc/extensions/calcdate/CalcDateMacro.java:88-91 | Without clamping, m months forward and back restores the date |
| Dates.PlusYearsRoundTrip | src/main/java/com/lealceldeiro/asciidoc/extensions/calcdate/CalcDateMacro.java:88-91 | Without clamping, y years forward and back restores the date |
| Dates.PlusMonthsClampsToMonthEnd | src/main/java/com/lealceldeiro/asciidoc/extensions/calcdate/CalcDateMacro.java:88 | 2024-01-31 plus one month is 2024-02-29 |
| Dates.TwelveMonthsAreAYear | src/main/java/com/lealceldeiro/asciidoc/extensions/calcdate/CalcDateMacro.java:166-169 | Adding 12·y months equals adding y years |
| Dates.Plus | src/main/java/com/lealceldeiro/asciidoc/extensions/calcdate/CalcDateMacro.java:88 | `date.plus(amount, unit)` gives a valid date, and the date itself for amount 0 |
| Dates.Minus | src/main/java/com/lealceldeiro/asciidoc/extensions/calcdate/CalcDateMacro.java:91 | `date.minus(amount, unit)` gives a valid date, and the same date for an amount of zero |
| Dates.MinusUndoesPlus | src/main/java/com/lealceldeiro/asciidoc/extensions/calcdate/CalcDateMacro.java:87-92 | Subtracting what was added gives the original date back, for days always and for months and years when the day of month was not clamped |
| IsoDates.ParseIsoDate | src/main/java/com/lealceldeiro/asciidoc/extensions/calcdate/CalcDateMacro.java:106 | `LocalDate.parse` yields only valid dates |
| IsoDates.ParsedFields | src/main/java/com/lealceldeiro/asciidoc/extensions/calcdate/CalcDateMacro.java:106 | Every text `LocalDate.parse` accepts is an optional sign, four to ten year digits, '-', two month digits, '-' and two day digits, and those fields read as the date's year, month and day |
| IsoDates.ParseFormatRoundTrip | src/main/java/com/lealceldeiro/asciidoc/extensions/calcdate/CalcDateMacro.java:88-106 | Every valid date printed in ISO form parses back to itself, including years past 9999 and before 0 |
| IsoDates.ParsesPlainDate | src/main/java/com/lealceldeiro/asciidoc/extensions/calcdate/CalcDateMacro.java:106 | "2024-01-01" parses to 1 January 2024 |
| Calc.OperatorOf | src/main/java/com/lealceldeiro/asciidoc/extensions/calc/CalcMacro.java:61-76 | Each of the four operator literals selects its operator. Nothing else selects one |
| Calc.PositionalAttributesCount | src/main/java/com/lealceldeiro/asciidoc/extensions/calc/CalcMacro.java:83-85 | 1 exactly when `mode` is present, else 0 |
| Calc.IsIntValue | src/main/java/com/lealceldeiro/asciidoc/extensions/calc/CalcMacro.java:109-116 | A key is an int key exactly when it is a signed decimal numeral whose value lies in the 32-bit range |
| Calc.IntKeys | src/main/java/com/lealceldeiro/asciidoc/extensions/calc/CalcMacro.java:95-96 | The keys kept are exactly those other than `mode` that parse as an int |
| Calc.OperandKeys | src/main/java/com/lealceldeiro/asciidoc/extensions/calc/CalcMacro.java:94-101 | The operand keys, sorted ascending by int value, are a permutation of the kept keys: exactly the keys of the map other than `mode` that `Integer.parseInt` accepts |
| Calc.SortBy | src/main/java/com/lealceldeiro/asciidoc/extensions/calc/CalcMacro.java:97-101 | The sort yields the keys ordered by the rank, as a permutation of its input |
| Calc.CompareAsWritten | src/main/java/com/lealceldeiro/asciidoc/extensions/calc/CalcMacro.java:97-101 | The comparator `key1 - key2` in int arithmetic equals the true difference whenever that fits an int |
| Calc.ComparatorOverflows | src/main/java/com/lealceldeiro/asciidoc/extensions/calc/CalcMacro.java:100 | Keys further apart than the int range compare backwards |
| Calc.ExtremeKeysCompareBackwards | src/main/java/com/lealceldeiro/asciidoc/extensions/calc/CalcMacro.java:100 | The keys "2147483647" and "-1" compare backwards |
| Calc.GetBigDecimal | src/main/java/com/lealceldeiro/asciidoc/extensions/calc/CalcMacro.java:118-127 | A null value is no number. Any other value is parsed as a `BigDecimal` |
| Calc.Operands | src/main/java/com/lealceldeiro/asciidoc/extensions/calc/CalcMacro.java:102-106 | At most one operand per key, each a valid decimal |
| Calc.GetNumbers | src/main/java/com/lealceldeiro/asciidoc/extensions/calc/CalcMacro.java:92-107 | `getNumbers` yields valid decimals |
| Calc.DecimalKeys | src/main/java/com/lealceldeiro/asciidoc/extensions/calc/CalcMacro.java:102-105 | The keys whose value `getBigDecimal` reads, taken from a key list in its order, are exactly the listed keys with a decimal value, none added |
| Calc.OperandsAreValues | src/main/java/com/lealceldeiro/asciidoc/extensions/calc/CalcMacro.java:102-106 | The operands are the decimal values of those keys, one each, in the same order |
| Calc.DecimalKeysSorted | src/main/java/com/lealceldeiro/asciidoc/extensions/calc/CalcMacro.java:97-105 | Dropping the entries without a decimal value keeps the rest in ascending key order |
| Calc.GetNumbersValues | src/main/java/com/lealceldeiro/asciidoc/extensions/calc/CalcMacro.java:92-107 | `getNumbers` yields the values of exactly the entries other than `mode` whose key is an int and whose value is a decimal, each once, in ascending key order, whatever the map's iteration order |
| Calc.Apply | src/main/java/com/lealceldeiro/asciidoc/extensions/calc/CalcMacro.java:61-73 | Each operator's `BigDecimal` operation gives a valid decimal when it does not throw |
| Calc.Fold | src/main/java/com/lealceldeiro/asciidoc/extensions/calc/CalcMacro.java:129-144 | A successful fold is a valid decimal; its value is stated by `FoldAddExact` and `FoldMultiplyExact` |
| Calc.Calc | src/main/java/com/lealceldeiro/asciidoc/extensions/calc/CalcMacro.java:129-144 | The loop computes the left fold from the first operand, empty on no operands or on an ArithmeticException |
| Calc.Calculate | src/main/java/com/lealceldeiro/asciidoc/extensions/calc/CalcMacro.java:45-81 | `calculate` returns what the specification function `Result` gives |
| Calc.Result | src/main/java/com/lealceldeiro/asciidoc/extensions/calc/CalcMacro.java:45-81 | The answer is one of "NaN", "NaO", "NaVM" or a number printed with two decimals. Only a known operator can throw. An unknown operator gives "NaN" or "NaO". Lenient mode never gives "NaN" |
| Calc.OperandsCount | src/main/java/com/lealceldeiro/asciidoc/extensions/calc/CalcMacro.java:102-106 | Every key yields an operand exactly when every value is a decimal |
| Calc.IntKeysCount | src/main/java/com/lealceldeiro/asciidoc/extensions/calc/CalcMacro.java:95-96 | Every key but `mode` is kept exactly when every such key is an int |
| Calc.CountCheck | src/main/java/com/lealceldeiro/asciidoc/extensions/calc/CalcMacro.java:54-56 | The operand count never exceeds the expected count. It equals it exactly when every entry but `mode` is usable |
| Calc.NotANumberIff | src/main/java/com/lealceldeiro/asciidoc/extensions/calc/CalcMacro.java:54-58 | "NaN" exactly in strict mode with some entry besides `mode` not usable: a non-int key, or a null or non-decimal value |
| Calc.UnknownOperator | src/main/java/com/lealceldeiro/asciidoc/extensions/calc/CalcMacro.java:56-76 | An unknown operator gives "NaO" exactly when the count check passes, and "NaN" otherwise |
| Calc.ZeroDivisorFails | src/main/java/com/lealceldeiro/asciidoc/extensions/calc/CalcMacro.java:136-140 | A zero divisor anywhere after the first operand makes the fold fail |
| Calc.FoldAddExact | src/main/java/com/lealceldeiro/asciidoc/extensions/calc/CalcMacro.java:62-67 | A successful sum is the exact sum of the operands. A difference is the first minus all the others |
| Calc.FoldMultiplyExact | src/main/java/com/lealceldeiro/asciidoc/extensions/calc/CalcMacro.java:68-70 | A successful product is the exact product of the operands |
| Calc.NoOperandsIsNotValidMath | src/main/java/com/lealceldeiro/asciidoc/extensions/calc/CalcMacro.java:78-80 | A known operator with no operands gives "NaVM" |
| Calc.ZeroDivisorIsNotValidMath | src/main/java/com/lealceldeiro/asciidoc/extensions/calc/CalcMacro.java:71-80 | `divide` with a zero operand after the first gives "NaVM" |
| Calc.SuccessRoundsUp | src/main/java/com/lealceldeiro/asciidoc/extensions/calc/CalcMacro.java:78-80 | A computed value prints as the least multiple of 0.01 not below it, in a text that reads back as that multiple |
| Calc.TwoIntegerOperands | src/main/java/com/lealceldeiro/asciidoc/extensions/calc/CalcMacro.java:92-107 | With entries "0" and "1" holding integers a and b, `getNumbers` is [a, b] at scale 0 in every iteration order |
| Calc.TwoIntegerResult | src/main/java/com/lealceldeiro/asciidoc/extensions/calc/CalcMacro.java:45-81 | Two integer entries under an operator whose step yields an integer v: the result is v printed with two zero fraction digits |
| Calc.TwoIntegerFailure | src/main/java/com/lealceldeiro/asciidoc/extensions/calc/CalcMacro.java:71-80 | Two integer entries under an operator whose step throws: "NaVM" |
| Calc.IntegerArithmetic | src/main/java/com/lealceldeiro/asciidoc/extensions/calc/CalcMacro.java:61-73 | On integers at scale 0, sum, subtract and multiply give the integer result at scale 0 and divide by zero throws |
| Calc.IntegerResult | src/main/java/com/lealceldeiro/asciidoc/extensions/calc/CalcMacro.java:54-80 | In lenient mode, or once the count check passes, an integer fold result v is printed as v with two zero fraction digits |
| Calc.LenientSkipsNonNumber | src/main/java/com/lealceldeiro/asciidoc/extensions/calc/CalcMacro.java:102-106 | In lenient mode an entry "0" without digits is dropped, not read as zero: every operator returns the entry "1" alone |
| Calc.StrictRejectsNonNumber | src/main/java/com/lealceldeiro/asciidoc/extensions/calc/CalcMacro.java:54-58 | In strict mode the same entry makes every operator answer "NaN" |
| Calc.SubtractTwoIntegers | src/main/java/com/lealceldeiro/asciidoc/extensions/calc/CalcMacro.java:65-67 | subtract of entries "0" = a and "1" = b is a - b, "0" first in every iteration order |
| Calc.TestSum | src/test/java/com/lealceldeiro/asciidoc/extensions/calc/CalcMacroTest.java:21 | sum of {"0": "2", "1": "2"} is "4.00" in every iteration order |
| Calc.TestSubtractZeroFirst | src/test/java/com/lealceldeiro/asciidoc/extensions/calc/CalcMacroTest.java:36 | subtract of {"0": "0", "1": "2"} is "-2.00" in every iteration order |
| Calc.TestSubtractZeroSecond | src/test/java/com/lealceldeiro/asciidoc/extensions/calc/CalcMacroTest.java:37 | subtract of {"0": "2", "1": "0"} is "2.00" in every iteration order |
| Calc.TestDivideByZero | src/test/java/com/lealceldeiro/asciidoc/extensions/calc/CalcMacroTest.java:55 | divide of {"0": "2", "1": "0"} is "NaVM" |
| Calc.TestNotANumber | src/test/java/com/lealceldeiro/asciidoc/extensions/calc/CalcMacroTest.java:22-59 | With "0" = "not a number" and "1" = "2", every operator gives "2.00" in lenient mode and "NaN" in strict mode |
| LegacyCalc.Numbers | src/main/java/com/lealceldeiro/asciidoc/extensions/CalcMacro.java:87-96 | At most one number per entry of the iteration order, each a valid decimal |
| LegacyCalc.NonModeKeys | src/main/java/com/lealceldeiro/asciidoc/extensions/CalcMacro.java:87-90 | The keys kept by the first filter are exactly the iterated keys other than `mode`, in iteration order |
| LegacyCalc.NumbersAreOperands | src/main/java/com/lealceldeiro/asciidoc/extensions/CalcMacro.java:87-96 | `getNumbers` reads the values of those keys in iteration order and drops the ones that are not decimals |
| LegacyCalc.NumbersValues | src/main/java/com/lealceldeiro/asciidoc/extensions/CalcMacro.java:87-96 | `getNumbers` yields the values of exactly the entries other than `mode` whose value is a decimal, each once |
| LegacyCalc.Reduce | src/main/java/com/lealceldeiro/asciidoc/extensions/CalcMacro.java:113-115 | `reduce`: zero for no numbers, otherwise the left fold |
| LegacyCalc.Result | src/main/java/com/lealceldeiro/asciidoc/extensions/CalcMacro.java:47-80 | The answer is "NaN", "NaO" or a number printed with two decimals. Only a known operation can throw. An unknown operation gives "NaN" or "NaO". Lenient mode never gives "NaN" |
| LegacyCalc.NumbersCount | src/main/java/com/lealceldeiro/asciidoc/extensions/CalcMacro.java:87-96 | Numbers and unparsable entries together are all the entries but `mode` |
| LegacyCalc.BadCountSize | src/main/java/com/lealceldeiro/asciidoc/extensions/CalcMacro.java:87-96 | Over distinct keys, the unparsable entries counted along the iteration order are exactly the set of unparsable keys |
| LegacyCalc.NotANumberIff | src/main/java/com/lealceldeiro/asciidoc/extensions/CalcMacro.java:56-59 | "NaN" exactly in strict mode unless unparsable entries plus `mode` number one. Good operands without `mode` are refused |
| LegacyCalc.OperatorDecides | src/main/java/com/lealceldeiro/asciidoc/extensions/CalcMacro.java:61-79 | Past the count check, "NaO" answers exactly an unknown operation. A known one throws or prints a text of at least four characters, never a sentinel |
| LegacyCalc.NoOperandsIsZero | src/main/java/com/lealceldeiro/asciidoc/extensions/CalcMacro.java:113-115 | A known operation with no numbers prints "0.00" |
| LegacyCalc.ZeroPrints | src/main/java/com/lealceldeiro/asciidoc/extensions/CalcMacro.java:78 | `BigDecimal.ZERO` at scale 2 prints "0.00" |
| LegacyCalc.ZeroDivisorThrows | src/main/java/com/lealceldeiro/asciidoc/extensions/CalcMacro.java:72-73 | A zero divisor after the first number lets the exception escape |
| LegacyCalc.SuccessRoundsUp | src/main/java/com/lealceldeiro/asciidoc/extensions/CalcMacro.java:77-79 | A computed value prints as the least multiple of 0.01 not below it, and reads back as that multiple |
| CalcDate.GetDate | src/main/java/com/lealceldeiro/asciidoc/extensions/calcdate/CalcDateMacro.java:101-113 | A parsed date is valid. Lenient mode always yields a date |
| CalcDate.Lenient | src/main/java/com/lealceldeiro/asciidoc/extensions/calcdate/CalcDateMacro.java:96-99 | Lenient exactly when the `mode` entry is "ignore_invalid"; without a `mode` key, exactly when the fourth positional entry is |
| CalcDate.GetRawTargetFormat | src/main/java/com/lealceldeiro/asciidoc/extensions/calcdate/CalcDateMacro.java:126-131 | The format by name when that key is present (even null), else by third position, else none |
| CalcDate.GetTemporalUnit | src/main/java/com/lealceldeiro/asciidoc/extensions/calcdate/CalcDateMacro.java:157-174 | Years exactly when the value text ends in y, months exactly when it ends in m, days otherwise |
| CalcDate.GetLong | src/main/java/com/lealceldeiro/asciidoc/extensions/calcdate/CalcDateMacro.java:145-155 | A parsable long is kept. Otherwise lenient mode gives 0 and strict mode nothing |
| CalcDate.AmountText | src/main/java/com/lealceldeiro/asciidoc/extensions/calcdate/CalcDateMacro.java:115-124 | A trailing d, m or y is stripped. Any other text is kept whole |
| CalcDate.GetAmount | src/main/java/com/lealceldeiro/asciidoc/extensions/calcdate/CalcDateMacro.java:115-124 | The amount fits a long |
| CalcDate.UnitOf | src/main/java/com/lealceldeiro/asciidoc/extensions/calcdate/CalcDateMacro.java:157-174 | Years exactly for a trailing y, months exactly for a trailing m, days otherwise |
| CalcDate.UnitLetter | src/main/java/com/lealceldeiro/asciidoc/extensions/calcdate/CalcDateMacro.java:34-36 | Each unit has one of the three letters |
| CalcDate.GetTargetFormat | src/main/java/com/lealceldeiro/asciidoc/extensions/calcdate/CalcDateMacro.java:133-143 | A compiling pattern is used. Otherwise lenient mode falls back to ISO_DATE and strict mode has none |
| CalcDate.CheckOrder | src/main/java/com/lealceldeiro/asciidoc/extensions/calcdate/CalcDateMacro.java:61-93 | The first failure wins: "NaD", then "NaN", then "NaF" (strict, format given), then "NaO" |
| CalcDate.LenientReportsOnlyOperator | src/main/java/com/lealceldeiro/asciidoc/extensions/calcdate/CalcDateMacro.java:56-93 | Lenient mode refuses only the operator. Without a compiling pattern it prints an ISO date or throws |
| CalcDate.AmountRoundTrip | src/main/java/com/lealceldeiro/asciidoc/extensions/calcdate/CalcDateMacro.java:115-124 | A long written with a unit letter reads back as that amount and unit. Without a letter it reads back as days |
| CalcDate.LetterStripped | src/main/java/com/lealceldeiro/asciidoc/extensions/calcdate/CalcDateMacro.java:118-119 | The unit letter after digits is stripped and selects its unit |
| CalcDate.AmountExamples | src/main/java/com/lealceldeiro/asciidoc/extensions/calcdate/CalcDateMacro.java:115-124 | In strict mode "1w" and "oney" are no amount. In lenient mode "x" reads as 0 |
| CalcDate.AbsentFormatPrintsIso | src/main/java/com/lealceldeiro/asciidoc/extensions/calcdate/CalcDateMacro.java:71-92 | Without a format, both modes print the shifted date in ISO form, or throw when the shift fails |
| CalcDate.Dispatch | src/main/java/com/lealceldeiro/asciidoc/extensions/calcdate/CalcDateMacro.java:77-92 | Past the checks, the shifted date is printed with the given pattern when it compiles, otherwise in ISO form |
| CalcDate.Print | src/main/java/com/lealceldeiro/asciidoc/extensions/calcdate/CalcDateMacro.java:87-92 | Prints exactly when the shift stays in range and the formatter prints that date, and then gives the formatter's text. The ISO formatters print every shifted date |
| CalcDate.Result | src/main/java/com/lealceldeiro/asciidoc/extensions/calcdate/CalcDateMacro.java:52-94 | An operation other than sum and sub gives one of "NaD", "NaN", "NaF", "NaO", and in lenient mode exactly "NaO" |
| CalcDate.GivenPatternPrints | src/main/java/com/lealceldeiro/asciidoc/extensions/calcdate/CalcDateMacro.java:71-92 | With a compiling format given, sum and sub print the shifted date with that pattern, or throw where the shift or the pattern fails |
| CalcDate.PrintIso | src/main/java/com/lealceldeiro/asciidoc/extensions/calcdate/CalcDateMacro.java:77 | The ISO formatters print every date |
| CalcDate.DateAndValueReads | src/main/java/com/lealceldeiro/asciidoc/extensions/calcdate/CalcDateMacro.java:96-131 | A map with only a date and a value is strict, has no format, and yields both |
| CalcDate.Shifts | src/main/java/com/lealceldeiro/asciidoc/extensions/calcdate/CalcDateMacro.java:87-92 | A strict sum or sub prints the date shifted forward or backward |
| CalcDate.DateAndValueShifts | src/main/java/com/lealceldeiro/asciidoc/extensions/calcdate/CalcDateMacro.java:87-92 | The same for a date given in ISO form |
| CalcDate.SumThenSubRestores | src/main/java/com/lealceldeiro/asciidoc/extensions/calcdate/CalcDateMacro.java:87-92 | Feeding a sum's output into a sub of the same number of days prints the original date |
| CalcDate.IsoTexts | src/main/java/com/lealceldeiro/asciidoc/extensions/calcdate/CalcDateMacro.java:106 | 1 January 2024 prints as "2024-01-01" and parses back |
| CalcDate.ThirdOfJanuary | src/main/java/com/lealceldeiro/asciidoc/extensions/calcdate/CalcDateMacro.java:88 | 2024-01-01 plus two days is 2024-01-03 |
| CalcDate.FirstOfDecember | src/main/java/com/lealceldeiro/asciidoc/extensions/calcdate/CalcDateMacro.java:91 | 2024-01-01 minus one month is 2023-12-01 |
| CalcDate.AmountTexts | src/main/java/com/lealceldeiro/asciidoc/extensions/calcdate/CalcDateMacro.java:115-124 | The amounts 2 days and 1 month are written "2d" and "1m" |
| CalcDate.SumTwoDays | src/main/java/com/lealceldeiro/asciidoc/extensions/calcdate/CalcDateMacro.java:87-88 | sum of 2024-01-01 and "2d" is "2024-01-03" |
| CalcDate.SubOneMonth | src/main/java/com/lealceldeiro/asciidoc/extensions/calcdate/CalcDateMacro.java:90-91 | sub of 2024-01-01 and "1m" is "2023-12-01" |
| CalcDate.SumTwoDaysInPattern | src/main/java/com/lealceldeiro/asciidoc/extensions/calcdate/CalcDateMacro.java:71-88 | sum of 2024-01-01, "2d" and the format "d MMM yy" is that pattern's text of 2024-01-03 (the case at CalcDateMacroTest.java lines 52-56) |
| CalcDate.SlashedDateIsNotADate | src/main/java/com/lealceldeiro/asciidoc/extensions/calcdate/CalcDateMacro.java:61-64 | A strict "2024/01/01" is "NaD" |
| CalcDate.SlashedIsNotIso | src/main/java/com/lealceldeiro/asciidoc/extensions/calcdate/CalcDateMacro.java:106 | "2024/01/01" does not parse |
| CalcDate.WeeksAreNotANumber | src/main/java/com/lealceldeiro/asciidoc/extensions/calcdate/CalcDateMacro.java:66-69 | A strict "1w" is "NaN" |
| CalcDate.MultiplyIsNotAnOperation | src/main/java/com/lealceldeiro/asciidoc/extensions/calcdate/CalcDateMacro.java:93 | `multiply` is "NaO" |
| CalcDate.LenientDateAndValueReads | src/main/java/com/lealceldeiro/asciidoc/extensions/calcdate/CalcDateMacro.java:96-131 | With `mode=ignore_invalid`, the same map is lenient and yields its date and value |
| CalcDate.LenientUnreadableAmountKeepsDate | src/main/java/com/lealceldeiro/asciidoc/extensions/calcdate/CalcDateMacro.java:145-155 | In lenient mode "x" reads as zero and the date is printed unchanged |
| LegacyCalcDate.GetFormat | src/main/java/com/lealceldeiro/asciidoc/extensions/CalcDateMacro.java:125-140 | The `String.valueOf` of the format is compiled as a pattern. Otherwise lenient mode gives ISO_DATE and strict mode nothing |
| LegacyCalcDate.Result | src/main/java/com/lealceldeiro/asciidoc/extensions/CalcDateMacro.java:51-88 | An operation other than sum and sub gives "NaD", "NaN" or "NaF", and in lenient mode exactly "NaD". Only sum and sub can throw |
| LegacyCalcDate.CheckOrder | src/main/java/com/lealceldeiro/asciidoc/extensions/CalcDateMacro.java:60-87 | "NaD", then "NaN", then "NaF", and "NaD" again for an unknown operation |
| LegacyCalcDate.AbsentFormatIsNullPattern | src/main/java/com/lealceldeiro/asciidoc/extensions/CalcDateMacro.java:125-140 | With no format, the pattern "null" is refused: the formatter is ISO_DATE in lenient mode and none in strict mode, which then answers "NaF" once date and amount are readable |
| LegacyCalcDate.AgreesWithCurrentRevision | src/main/java/com/lealceldeiro/asciidoc/extensions/CalcDateMacro.java:51-88 | With a format given and no fourth positional attribute, both revisions print the same for sum and sub |
| MathLicense.License.constructor | src/main/java/com/lealceldeiro/asciidoc/extensions/calcexpression/CalcExpressionMacro.java:26 | mXParser's licence record starts with no confirmation |
| MathLicense.License.ConfirmCommercialUse | src/main/java/com/lealceldeiro/asciidoc/extensions/calcexpression/CalcExpressionMacro.java:150 | Records one commercial confirmation for the author, after the earlier ones |
| MathLicense.License.ConfirmNonCommercialUse | src/main/java/com/lealceldeiro/asciidoc/extensions/calcexpression/CalcExpressionMacro.java:148 | Records one non-commercial confirmation for the author, after the earlier ones |
| CalcExpression.Evaluate | src/main/java/com/lealceldeiro/asciidoc/extensions/calcexpression/CalcExpressionMacro.java:156-163 | NaN gives exactly "NaE". An infinite value exactly throws |
| CalcExpression.FiniteRoundsUp | src/main/java/com/lealceldeiro/asciidoc/extensions/calcexpression/CalcExpressionMacro.java:159-161 | A finite value prints as the least multiple of 0.01 not below it, and reads back as that multiple |
| CalcExpression.Attributes.GetAttribute | src/main/java/com/lealceldeiro/asciidoc/extensions/calcexpression/CalcExpressionMacro.java:52-54 | The directive's value whenever it has the key, even a null one, else the document's |
| CalcExpression.NewAttributes | src/main/java/com/lealceldeiro/asciidoc/extensions/calcexpression/CalcExpressionMacro.java:42-50 | A null map reads as empty: a lookup gives the directive's entry when it has the key, otherwise the document's, and nothing when both are null |
| CalcExpression.GetExpression | src/main/java/com/lealceldeiro/asciidoc/extensions/calcexpression/CalcExpressionMacro.java:165-169 | The expression by name, else by first position, from the directive only; never from the document |
| CalcExpression.GetCalculationAttributes | src/main/java/com/lealceldeiro/asciidoc/extensions/calcexpression/CalcExpressionMacro.java:81-93 | The directive's map is kept whole. Of the document, exactly a non-null author and licence type are copied, and the directive's values take priority |
| CalcExpression.Accepted | src/main/java/com/lealceldeiro/asciidoc/extensions/calcexpression/CalcExpressionMacro.java:123-144 | Accepted exactly when not null, not blank, and one of the valid values if any are listed. The value is unchanged |
| CalcExpression.GetAttribute | src/main/java/com/lealceldeiro/asciidoc/extensions/calcexpression/CalcExpressionMacro.java:123-144 | The loop over the valid values returns exactly what `Accepted` says |
| CalcExpression.ConfirmXParserLicence | src/main/java/com/lealceldeiro/asciidoc/extensions/calcexpression/CalcExpressionMacro.java:146-154 | "non_commercial" and "commercial" each record their confirmation. Any other type records nothing |
| CalcExpression.Calculate | src/main/java/com/lealceldeiro/asciidoc/extensions/calcexpression/CalcExpressionMacro.java:95-121 | Returns `Result` and appends exactly `Attestation` to the licence's confirmations |
| CalcExpression.Admit | src/main/java/com/lealceldeiro/asciidoc/extensions/calcexpression/CalcExpressionMacro.java:99-117 | A refusal carries one of "NaE", "NaA", "NaVA", "NaL"; "NaE" exactly for a missing or blank expression. Admission means a non-blank expression, a non-blank author of at least 5 UTF-16 units, and a use that is non-commercial exactly for "non_commercial" and commercial exactly for "commercial" |
| CalcExpression.Result | src/main/java/com/lealceldeiro/asciidoc/extensions/calcexpression/CalcExpressionMacro.java:95-121 | Only an admitted expression can throw. "NaA", "NaVA" or "NaL" is answered exactly when a check after the expression refuses |
| CalcExpression.EvaluateIsNoCheckSentinel | src/main/java/com/lealceldeiro/asciidoc/extensions/calcexpression/CalcExpressionMacro.java:156-163 | An evaluated result is never "NaA", "NaVA" or "NaL" |
| CalcExpression.ExpressionFirst | src/main/java/com/lealceldeiro/asciidoc/extensions/calcexpression/CalcExpressionMacro.java:99-102 | A missing or blank expression gives "NaE" and confirms nothing |
| CalcExpression.AuthorChecks | src/main/java/com/lealceldeiro/asciidoc/extensions/calcexpression/CalcExpressionMacro.java:104-110 | "NaA" exactly for a null or blank author. "NaVA" exactly for a shorter one than five UTF-16 units |
| CalcExpression.LicenseMustMatch | src/main/java/com/lealceldeiro/asciidoc/extensions/calcexpression/CalcExpressionMacro.java:112-117 | With a valid author, "NaL" exactly when the licence type is neither literal |
| CalcExpression.ConfirmedOnlyWhenAdmitted | src/main/java/com/lealceldeiro/asciidoc/extensions/calcexpression/CalcExpressionMacro.java:99-121 | One confirmation, for the author and named use, exactly when all checks pass, and only then is the expression evaluated. Otherwise the answer is a check sentinel |
| CalcExpression.AdmittedEvaluates | src/main/java/com/lealceldeiro/asciidoc/extensions/calcexpression/CalcExpressionMacro.java:119-120 | Once admitted: NaN is "NaE", infinity throws, a finite value prints rounded up to hundredths |
| CalcExpression.ShortAuthorIsNotValid | src/main/java/com/lealceldeiro/asciidoc/extensions/calcexpression/CalcExpressionMacro.java:108-110 | The author "John" gives "NaVA" |
| CalcExpression.NullAuthorHidesDocumentAuthor | src/main/java/com/lealceldeiro/asciidoc/extensions/calcexpression/CalcExpressionMacro.java:125-130 | A null author in the directive hides the document's author: "NaA" |
| CalcExpression.MissingAuthorIsNotAnAuthor | src/main/java/com/lealceldeiro/asciidoc/extensions/calcexpression/CalcExpressionMacro.java:104-107 | No author anywhere gives "NaA" |
| CalcExpression.BlankAuthorIsNotAnAuthor | src/main/java/com/lealceldeiro/asciidoc/extensions/calcexpression/CalcExpressionMacro.java:131-134 | A blank author gives "NaA" |
| CalcExpression.MissingLicenseIsNotALicense | src/main/java/com/lealceldeiro/asciidoc/extensions/calcexpression/CalcExpressionMacro.java:112-117 | A valid author and no licence type gives "NaL" |
| CalcExpression.TwelvePrints | src/main/java/com/lealceldeiro/asciidoc/extensions/calcexpression/CalcExpressionMacro.java:159-161 | 12 prints as "12.00" |
| CalcExpression.CommercialUse | src/main/java/com/lealceldeiro/asciidoc/extensions/calcexpression/CalcExpressionMacro.java:112-120 | Passing every check under "commercial" evaluates the expression and confirms commercial use once |
| CalcExpression.DocumentLookups | src/main/java/com/lealceldeiro/asciidoc/extensions/calcexpression/CalcExpressionMacro.java:52-54 | The author and licence type come from the document when the directive lacks them |
| CalcExpression.DocumentLicensesExpression | src/main/java/com/lealceldeiro/asciidoc/extensions/calcexpression/CalcExpressionMacro.java:95-121 | Author "Johny" and "commercial" from the document, with "3 * 4" evaluating to 12, print "12.00" and confirm commercial use for Johny |
| LegacyCalcExpression.AttributeText | src/main/java/com/lealceldeiro/asciidoc/extensions/CalcExpressionMacro.java:74-77 | The looked-up value, the directive's when it has the key, printed with `String.valueOf` |
| LegacyCalcExpression.GetAttribute | src/main/java/com/lealceldeiro/asciidoc/extensions/CalcExpressionMacro.java:72-91 | The loop returns exactly what `Accepted` says of the printed value |
| LegacyCalcExpression.Process | src/main/java/com/lealceldeiro/asciidoc/extensions/CalcExpressionMacro.java:41-70 | Returns `Result` and appends exactly `Attestation` to the licence's confirmations |
| LegacyCalcExpression.Admit | src/main/java/com/lealceldeiro/asciidoc/extensions/CalcExpressionMacro.java:45-62 | As the current revision, but the author and licence texts are the printed lookups: admission means a non-blank printed author of at least 5 UTF-16 units and a printed licence type naming the use |
| LegacyCalcExpression.Result | src/main/java/com/lealceldeiro/asciidoc/extensions/CalcExpressionMacro.java:41-70 | Only an admitted expression can throw. "NaA", "NaVA" or "NaL" is answered exactly when a check after the expression refuses |
| LegacyCalcExpression.MissingAuthorIsNotValid | src/main/java/com/lealceldeiro/asciidoc/extensions/CalcExpressionMacro.java:50-56 | A missing or null author prints as "null", so the answer is "NaVA" and nothing is confirmed |
| LegacyCalcExpression.NotAnAuthorOnlyWhenBlank | src/main/java/com/lealceldeiro/asciidoc/extensions/CalcExpressionMacro.java:50-53 | "NaA" exactly for a blank author, never for a missing one |
| LegacyCalcExpression.AgreesWithCurrentRevision | src/main/java/com/lealceldeiro/asciidoc/extensions/CalcExpressionMacro.java:41-70 | Where an author is given, both revisions answer the same and confirm the same |

## Left out

- Each macro's `process` wraps the text `calculate` returns in a phrase node. The model stops at that text.
  The earlier expression macro returns its sentinels as bare strings from `process`. Both are modelled as the text.
- Logging, the extension registries and the logger factory are left out. None of them affects a result.
- Attribute values are modelled as strings or null. Asciidoctor hands over strings; `toString` of other objects is not modelled.
- The iteration order of a `HashMap` is the parameter `order`. Keys of equal int value (such as "1" and "01") keep that order.
  Java's stable sort does the same, and which of them comes first is not stated.
- Calc.OperandKeys sorts by the true key order, not by the overflowing comparator. The overflow is under "## Findings".
- Decimals.Divide: an exact quotient is proved correct when it exists. It is not proved that only a non-terminating quotient fails.
- Decimals.ParseDecimal: only ASCII digits are accepted. `new BigDecimal` also takes other Unicode digits.
- Text.ParseInt, Text.ParseLong and Text.ParseInteger accept ASCII digits only; Java also accepts other Unicode decimal digits. `Integer.parseInt` and `Long.parseLong` read digits with `Character.digit`, so a key such as "١" or an amount such as "２d" is read in Java but rejected by the model.
- Decimals.SetScale2Ceiling: a scale beyond the int range, which throws, is the `None` result. The exact Java message is not modelled.
- `Expression.calculate()` of mXParser is the parameter `eval`. A finite double is its exact decimal value, which has 0 to 1074 fraction digits.
  The model does not restrict it further to values a 64-bit double can hold.
- mXParser's `License` is modelled only as its record of confirmations. Its effect on later evaluations is not modelled.
- `LocalDate.now()` is the parameter `today`. The system clock and time zone are not modelled.
- `DateTimeFormatter.ofPattern` and a pattern's `format` are the parameter `Patterns`: whether a pattern compiles, and what it prints.
  The pattern language, `Locale.ENGLISH` texts and parse errors are not modelled.
- `ISO_DATE` and `ISO_LOCAL_DATE` both print a `LocalDate` as yyyy-MM-dd, because a `LocalDate` has no offset to append. They are one function here.
- IsoDates.ParseIsoDate accepts ASCII digits only. `LocalDate.parse` also rejects other digits, so nothing accepted is lost.
- Dates.PlusDays and Dates.Plus promise a valid date. Their relation to the calendar is stated in the round-trip and order lemmas, not in their own contracts.
- Text.Utf16Length counts a character beyond U+FFFF as two code units. Dafny strings hold no lone surrogates, so those do not occur.
- `InvalidValue.java` defines no "NaD" or "NaF", although the current date macro uses them. Their values are taken from the earlier `CalcDateMacro.java:30-31`.
- `Operator.java` is not part of this model. The operator literals are taken from the earlier `CalcMacro.java:29-32`.
- The earlier expression macro calls `parent.getDocument()` without a null check. A parent without a document, where that call fails, is not modelled:
  LegacyCalcExpression takes the document's attributes as a map.
- The date tests also name time-zone attributes that this revision of the source does not read. They are not modelled.

## Findings

| source | as written | input that shows it | evidently intended | confidence | as-written member | corrected member |
|---|---|---|---|---|---|---|
| src/main/java/com/lealceldeiro/asciidoc/extensions/calc/CalcMacro.java:97-101 | The sort compares keys by `key1 - key2` in int arithmetic, which overflows | keys "2147483647" and "-1": the difference wraps to a negative int, so 2147483647 is ranked before -1 | ascending key order, as `Integer.compare` gives | not executed; the overflow is certain, the final operand order also depends on the sort | Calc.ExtremeKeysCompareBackwards | Calc.OperandKeys |
| src/main/java/com/lealceldeiro/asciidoc/extensions/CalcExpressionMacro.java:74-81 | `String.valueOf` runs before the null check, so the check never fires | no author in the directive or the document: the author becomes "null", four characters, and the answer is "NaVA" | "NaA", as the current revision answers | not executed | LegacyCalcExpression.MissingAuthorIsNotValid | CalcExpression.AuthorChecks |
| src/main/java/com/lealceldeiro/asciidoc/extensions/CalcDateMacro.java:125-140 | An absent format is printed as "null" and compiled as a pattern; `ofPattern` refuses it, since 'l' is no pattern letter | strict sum of date 2024-01-01 and value 2d with no format: "NaF" | the date printed in ISO form, "2024-01-03", as the current revision prints | not executed | LegacyCalcDate.AbsentFormatIsNullPattern | CalcDate.AbsentFormatPrintsIso |
