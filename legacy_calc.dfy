/** The arithmetic calculator of the earlier revision (the root-package `CalcMacro`). Unlike
    the current one it takes every entry but `mode` as an operand, in the map's iteration order
    and whatever its key; its strict check always subtracts one for `mode`, present or not; no
    operands give zero; and an ArithmeticException is not caught but escapes `calculate`. */
module LegacyCalc {

  import opened Optional
  import opened Text
  import opened Decimals
  import opened DecimalText
  import opened Directive
  import opened Calc

  /** `NUMBER_OF_POSITION_ATTRIBUTES`. */
  const NUMBER_OF_POSITION_ATTRIBUTES: int := 1

  /** An entry whose value `getBigDecimal` turns into a number. */
  predicate Parses(attributes: AttrMap, key: string)
    requires key in attributes
  {
    GetBigDecimal(attributes[key]).Some?
  }

  /** `getNumbers`: the values of the entries other than `mode`, in iteration order, that are
      decimals. */
  function Numbers(attributes: AttrMap, order: seq<string>): (numbers: seq<Decimal>)
    requires forall k :: k in order ==> k in attributes
    ensures |numbers| <= |order|
    ensures AllValid(numbers)
  {
    if order == [] then []
    else
      var rest := Numbers(attributes, order[1..]);
      if order[0] == MODE then rest
      else
        match GetBigDecimal(attributes[order[0]])
        case Some(d) => [d] + rest
        case None => rest
  }

  /** The keys `getNumbers` reads: every key but `mode`, in iteration order. */
  function NonModeKeys(order: seq<string>): (keys: seq<string>)
    ensures |keys| <= |order| && multiset(keys) <= multiset(order)
    ensures forall k :: k in keys <==> k in order && k != MODE
  {
    if order == [] then []
    else
      var rest := NonModeKeys(order[1..]);
      assert order == [order[0]] + order[1..];
      if order[0] == MODE then rest else [order[0]] + rest
  }

  /** Numbers takes the decimal values of the keys other than `mode`, in iteration order: the
      same filter as the current revision, without the int-key filter and the sort. */
  lemma {:induction false} NumbersAreOperands(attributes: AttrMap, order: seq<string>)
    requires forall k :: k in order ==> k in attributes
    ensures Numbers(attributes, order) == Operands(attributes, NonModeKeys(order))
  {
    if order != [] {
      NumbersAreOperands(attributes, order[1..]);
      var rest := NonModeKeys(order[1..]);
      if order[0] != MODE {
        assert ([order[0]] + rest)[1..] == rest;
      }
    }
  }

  /** `getNumbers` yields the values of exactly the entries other than `mode` whose value is a
      decimal, each once, in iteration order. */
  lemma NumbersValues(attributes: AttrMap, order: seq<string>)
    requires Enumerates(order, attributes)
    ensures var keys := DecimalKeys(attributes, NonModeKeys(order));
      && (forall k :: k in keys <==> k in attributes && k != MODE && Parses(attributes, k))
      && (forall i, j :: 0 <= i < j < |keys| ==> keys[i] != keys[j])
      && ValuesOf(attributes, keys, Numbers(attributes, order))
  {
    var keys := DecimalKeys(attributes, NonModeKeys(order));
    NumbersAreOperands(attributes, order);
    OperandsAreValues(attributes, NonModeKeys(order));
    DistinctOnce(order);
    assert multiset(keys) <= multiset(order);
    OnceMeansDistinct(keys);
  }

  /** `calc`: `reduce` from the first number, `BigDecimal.ZERO` when there is none; None where
      the operator throws. */
  function Reduce(numbers: seq<Decimal>, op: Op): (r: Option<Decimal>)
    requires AllValid(numbers)
    ensures r.Some? ==> Valid(r.value)
    ensures numbers == [] ==> r == Some(Decimal(0, 0))
    ensures numbers != [] ==> r == Fold(numbers, op)
  {
    if numbers == [] then Some(Decimal(0, 0)) else Fold(numbers, op)
  }

  /** What `calculate(operation, attributes)` returns; an exception from the operator or from
      `setScale` escapes it. */
  function Result(operation: string, attributes: AttrMap, order: seq<string>): (r: Outcome)
    requires Enumerates(order, attributes)
    ensures r.Returned? ==>
      || r.text in {NOT_A_NUMBER, NOT_AN_OPERATION}
      || (|r.text| >= 4 && r.text[|r.text| - 3] == '.')
    ensures r.Thrown? ==> OperatorOf(operation).Some?
    ensures OperatorOf(operation).None? ==> r.Returned? && r.text in {NOT_A_NUMBER, NOT_AN_OPERATION}
    ensures IgnoreInvalid(attributes) ==> r != Returned(NOT_A_NUMBER)
  {
    var numbers := Numbers(attributes, order);
    if !IgnoreInvalid(attributes) && |numbers| != |attributes| - NUMBER_OF_POSITION_ATTRIBUTES then
      Returned(NOT_A_NUMBER)
    else
      match OperatorOf(operation)
      case None => Returned(NOT_AN_OPERATION)
      case Some(op) =>
        match Reduce(numbers, op)
        case None => Thrown
        case Some(value) =>
          match SetScale2Ceiling(value)
          case None => Thrown
          case Some(rounded) => Returned(RenderHundredths(rounded.unscaled))
  }

  // ---------------------------------------------------------------------------------------
  // The strict count check

  /** The entries other than `mode` whose value is null or not a decimal. */
  function BadKeys(attributes: AttrMap): set<string> {
    set k | k in attributes && k != MODE && GetBigDecimal(attributes[k]).None?
  }

  /** How many entries of `order` are bad keys. */
  function BadCount(attributes: AttrMap, order: seq<string>): nat
    requires forall k :: k in order ==> k in attributes
  {
    if order == [] then 0
    else (if order[0] in BadKeys(attributes) then 1 else 0) + BadCount(attributes, order[1..])
  }

  /** Every entry but `mode` is either a number or a bad key. */
  lemma {:induction false} NumbersCount(attributes: AttrMap, order: seq<string>)
    requires forall i, j :: 0 <= i < j < |order| ==> order[i] != order[j]
    requires forall k :: k in order ==> k in attributes
    ensures |Numbers(attributes, order)| + BadCount(attributes, order) == |order| - (if MODE in order then 1 else 0)
  {
    if order != [] {
      NumbersCount(attributes, order[1..]);
      assert order[0] !in order[1..];
      assert MODE in order <==> order[0] == MODE || MODE in order[1..];
    }
  }

  /** Over distinct keys, BadCount counts the bad keys among them. */
  lemma {:induction false} BadCountSize(attributes: AttrMap, order: seq<string>)
    requires forall i, j :: 0 <= i < j < |order| ==> order[i] != order[j]
    requires forall k :: k in order ==> k in attributes
    ensures BadCount(attributes, order) == |set k | k in order && k in BadKeys(attributes)|
  {
    if order != [] {
      var rest := order[1..];
      BadCountSize(attributes, rest);
      assert order[0] !in rest;
      var bad := set k | k in order && k in BadKeys(attributes);
      var badRest := set k | k in rest && k in BadKeys(attributes);
      if order[0] in BadKeys(attributes) {
        assert bad == badRest + {order[0]};
      } else {
        assert bad == badRest;
      }
    }
  }

  /** Strict mode answers "NaN" unless the bad entries and `mode` together number exactly one:
      with `mode` present every other value must be a decimal, and without it exactly one
      value must fail, so a map of good operands and no `mode` is rejected. */
  lemma NotANumberIff(operation: string, attributes: AttrMap, order: seq<string>)
    requires Enumerates(order, attributes)
    ensures Result(operation, attributes, order) == Returned(NOT_A_NUMBER)
      <==> !IgnoreInvalid(attributes) && |BadKeys(attributes)| + PositionalAttributesCount(attributes) != 1
  {
    NumbersCount(attributes, order);
    BadCountSize(attributes, order);
    EnumerationCount(order, attributes);
    assert (set k | k in order && k in BadKeys(attributes)) == BadKeys(attributes);
  }

  /** In lenient mode, or once the count check passes, a known operator gives a number or an
      exception and never a sentinel; an unknown one gives "NaO". */
  lemma OperatorDecides(operation: string, attributes: AttrMap, order: seq<string>)
    requires Enumerates(order, attributes)
    requires IgnoreInvalid(attributes) || |BadKeys(attributes)| + PositionalAttributesCount(attributes) == 1
    ensures OperatorOf(operation).None? <==> Result(operation, attributes, order) == Returned(NOT_AN_OPERATION)
    ensures OperatorOf(operation).Some? ==>
      Result(operation, attributes, order).Thrown? || |Result(operation, attributes, order).text| >= 4
  {
    NotANumberIff(operation, attributes, order);
  }

  // ---------------------------------------------------------------------------------------
  // What calculate returns

  /** No operands under a known operator print zero: `BigDecimal.ZERO` at scale 2. */
  lemma NoOperandsIsZero(operation: string, attributes: AttrMap, order: seq<string>)
    requires Enumerates(order, attributes) && OperatorOf(operation).Some?
    requires Numbers(attributes, order) == []
    requires IgnoreInvalid(attributes) || |attributes| == NUMBER_OF_POSITION_ATTRIBUTES
    ensures Result(operation, attributes, order) == Returned("0.00")
  {
    NotANumberIff(operation, attributes, order);
    ZeroPrints();
  }

  /** `BigDecimal.ZERO.setScale(2, CEILING).toString()` is "0.00". */
  lemma ZeroPrints()
    ensures SetScale2Ceiling(Decimal(0, 0)) == Some(Decimal(0, 2))
    ensures RenderHundredths(0) == "0.00"
  {
    assert ZeroPad(0, 2) == "00";
  }

  /** Division by a zero operand after the first is not caught: the exception escapes. */
  lemma ZeroDivisorThrows(attributes: AttrMap, order: seq<string>)
    requires Enumerates(order, attributes)
    requires IgnoreInvalid(attributes) || |BadKeys(attributes)| + PositionalAttributesCount(attributes) == 1
    requires var numbers := Numbers(attributes, order);
      exists i :: 1 <= i < |numbers| && numbers[i].unscaled == 0
    ensures Result(DIVIDE, attributes, order) == Thrown
  {
    NotANumberIff(DIVIDE, attributes, order);
    var numbers := Numbers(attributes, order);
    var i :| 1 <= i < |numbers| && numbers[i].unscaled == 0;
    assert numbers[1..][i - 1] == numbers[i];
    ZeroDivisorFails(numbers[0], numbers[1..]);
  }

  /** A computed value is printed as the least multiple of 0.01 not below it, in a text that
      reads back as that multiple. */
  lemma SuccessRoundsUp(operation: string, attributes: AttrMap, order: seq<string>)
    requires Enumerates(order, attributes) && OperatorOf(operation).Some?
    requires IgnoreInvalid(attributes) || |BadKeys(attributes)| + PositionalAttributesCount(attributes) == 1
    requires Reduce(Numbers(attributes, order), OperatorOf(operation).value).Some?
    ensures var value := Reduce(Numbers(attributes, order), OperatorOf(operation).value).value;
      SetScale2Ceiling(value).Some? ==>
        var r := SetScale2Ceiling(value).value.unscaled;
        && Result(operation, attributes, order) == Returned(RenderHundredths(r))
        && IsCeilingHundredths(value, r)
        && ParseDecimal(RenderHundredths(r)) == Some(Decimal(r, 2))
  {
    NotANumberIff(operation, attributes, order);
    var value := Reduce(Numbers(attributes, order), OperatorOf(operation).value).value;
    if SetScale2Ceiling(value).Some? {
      SetScale2CeilingRoundsUp(value);
      RenderHundredthsRoundTrip(SetScale2Ceiling(value).value.unscaled);
    }
  }
}
