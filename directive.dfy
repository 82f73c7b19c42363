/** What every calculation directive shares: the sentinel codes it returns instead of a value,
    the reserved attribute keys, the operator literals, and the raw attribute map that the
    document engine hands over, with Java's `Map.get`, `Map.getOrDefault` and `String.valueOf`
    on it. */
module Directive {

  import opened Optional

  // Sentinels of InvalidValue.java
  const NOT_A_NUMBER := "NaN"
  const NOT_AN_OPERATION := "NaO"
  const NOT_A_VALID_MATH := "NaVM"
  const NOT_AN_EXPRESSION := "NaE"
  const NOT_AN_AUTHOR := "NaA"
  const NOT_A_VALID_AUTHOR := "NaVA"
  const NOT_A_LICENSE := "NaL"
  // Sentinels the date calculator adds
  const NOT_A_DATE := "NaD"
  const NOT_A_FORMAT := "NaF"

  // Attribute keys of Macro.Key and the one value of Macro.Value
  const MODE := "mode"
  const DATE := "date"
  const VALUE := "value"
  const TARGET_FORMAT := "format"
  const EXP := "exp"
  const AUTHOR := "author"
  const LICENSE_TYPE := "calc_exp_license_type"
  const IGNORE_INVALID := "ignore_invalid"

  // Operator literals
  const SUM := "sum"
  const SUB := "sub"
  const MULTIPLY := "multiply"
  const DIVIDE := "divide"

  /** A directive's attributes: key to raw value, where None is a key present with a null value. */
  type AttrMap = map<string, Option<string>>

  /** What a call to `calculate` does: return a text, or let a runtime exception escape. */
  datatype Outcome = Returned(text: string) | Thrown

  /** `Map.get`: the value, or null when the key is absent. */
  function Get(m: AttrMap, key: string): Option<string> {
    if key in m then m[key] else None
  }

  /** `Map.getOrDefault`: a present key wins even when its value is null. */
  function GetOrDefault(m: AttrMap, key: string, default: Option<string>): Option<string> {
    if key in m then m[key] else default
  }

  /** The attribute named `key`, or failing that the positional attribute `position`:
      `m.getOrDefault(key, m.get(position))`. */
  function NamedOrPositional(m: AttrMap, key: string, position: string): (r: Option<string>)
    ensures key in m ==> r == m[key]
    ensures key !in m && position in m ==> r == m[position]
    ensures key !in m && position !in m ==> r == None
  {
    GetOrDefault(m, key, Get(m, position))
  }

  /** `String.valueOf(Object)`: null prints as "null". */
  function ValueOf(v: Option<string>): string {
    match v
    case Some(t) => t
    case None => "null"
  }

  /** Lenient mode as the arithmetic calculators and the earlier date calculator decide it:
      `containsKey("mode") && "ignore_invalid".equals(String.valueOf(get("mode")))`. */
  function IgnoreInvalid(attributes: AttrMap): (lenient: bool)
    ensures lenient <==> MODE in attributes && attributes[MODE] == Some(IGNORE_INVALID)
  {
    MODE in attributes && IGNORE_INVALID == ValueOf(Get(attributes, MODE))
  }
}
