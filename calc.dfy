/** The arithmetic calculator `calc:sum[...]` / `sub` / `multiply` / `divide` of the current
    revision. Operands are the entries whose key is an int, read in ascending key order; in
    strict mode every entry but `mode` must be such an operand; the operator is folded over
    them left to right and the result is printed with two fraction digits, rounded toward
    +infinity. The map's iteration order is a parameter `order` listing its keys. */
module Calc {

  import opened Optional
  import opened Text
  import opened Decimals
  import opened DecimalText
  import opened Directive

  datatype Op = Sum | Sub | Multiply | Divide

  /** The `switch (operator)`: the four operator literals, anything else is not an operation. */
  function OperatorOf(operator: string): (r: Option<Op>)
    ensures r == Some(Sum) <==> operator == SUM
    ensures r == Some(Sub) <==> operator == SUB
    ensures r == Some(Multiply) <==> operator == MULTIPLY
    ensures r == Some(Divide) <==> operator == DIVIDE
  {
    if operator == SUM then Some(Sum)
    else if operator == SUB then Some(Sub)
    else if operator == MULTIPLY then Some(Multiply)
    else if operator == DIVIDE then Some(Divide)
    else None
  }

  // ---------------------------------------------------------------------------------------
  // Choosing the operands

  /** `order` lists every key of `attributes` exactly once: a HashMap's iteration order. */
  predicate Enumerates(order: seq<string>, attributes: AttrMap) {
    (forall i, j :: 0 <= i < j < |order| ==> order[i] != order[j])
    && (forall i :: 0 <= i < |order| ==> order[i] in attributes)
    && (forall k :: k in attributes ==> k in order)
  }

  /** `positionalAttributesCount`: 1 when the map holds `mode`, else 0. */
  function PositionalAttributesCount(attributes: AttrMap): (n: nat)
    ensures n == 1 <==> MODE in attributes
    ensures n <= 1
  {
    if MODE in attributes then 1 else 0
  }

  /** `isIntValue`: `Integer.parseInt` accepts the key, that is, it is a signed decimal
      numeral whose value fits 32 bits. */
  predicate IsIntValue(key: string): (r: bool)
    ensures r <==> ParseInteger(key).Some? && INT_MIN <= ParseInteger(key).value <= INT_MAX
  {
    ParseInt(key).Some?
  }

  /** The value a key is sorted by: `Integer.parseInt(key)` (only int keys reach the sort). */
  function KeyValue(key: string): int {
    match ParseInt(key)
    case Some(v) => v
    case None => 0
  }

  predicate AllIntKeys(keys: seq<string>) {
    forall i :: 0 <= i < |keys| ==> IsIntValue(keys[i])
  }

  /** The first two filters of `getNumbers`: keys other than `mode` that parse as an int, in
      iteration order. */
  function IntKeys(order: seq<string>): (keys: seq<string>)
    ensures AllIntKeys(keys) && |keys| <= |order| && multiset(keys) <= multiset(order)
    ensures forall k :: k in keys <==> k in order && k != MODE && IsIntValue(k)
  {
    if order == [] then []
    else
      var rest := IntKeys(order[1..]);
      assert order == [order[0]] + order[1..];
      if order[0] != MODE && IsIntValue(order[0]) then [order[0]] + rest else rest
  }

  predicate SortedBy(keys: seq<string>, rank: string -> int) {
    forall i, j :: 0 <= i < j < |keys| ==> rank(keys[i]) <= rank(keys[j])
  }

  /** Places `key` after every key whose rank is not larger: the stable insertion step. */
  function InsertBy(key: string, sorted: seq<string>, rank: string -> int): (r: seq<string>)
    ensures multiset(r) == multiset(sorted) + multiset{key}
  {
    if sorted == [] then [key]
    else if rank(key) < rank(sorted[0]) then [key] + sorted
    else
      assert sorted == [sorted[0]] + sorted[1..];
      [sorted[0]] + InsertBy(key, sorted[1..], rank)
  }

  lemma {:induction false} InsertKeepsSorted(key: string, sorted: seq<string>, rank: string -> int)
    requires SortedBy(sorted, rank)
    ensures SortedBy(InsertBy(key, sorted, rank), rank)
  {
    if sorted != [] && rank(key) >= rank(sorted[0]) {
      var rest := sorted[1..];
      InsertKeepsSorted(key, rest, rank);
      LowerBoundKept(key, rest, rank, rank(sorted[0]));
    }
  }

  /** A bound below every rank of `sorted` and the rank of `key` stays below the insertion. */
  lemma LowerBoundKept(key: string, sorted: seq<string>, rank: string -> int, bound: int)
    requires rank(key) >= bound && forall i :: 0 <= i < |sorted| ==> rank(sorted[i]) >= bound
    ensures forall i :: 0 <= i < |InsertBy(key, sorted, rank)| ==> rank(InsertBy(key, sorted, rank)[i]) >= bound
  {
    var r := InsertBy(key, sorted, rank);
    forall i | 0 <= i < |r| ensures rank(r[i]) >= bound {
      assert r[i] in multiset(sorted) + multiset{key};
    }
  }

  /** Insertion sort by rank; keys of equal rank keep their order. */
  function SortBy(keys: seq<string>, rank: string -> int): (r: seq<string>)
    ensures SortedBy(r, rank) && multiset(r) == multiset(keys)
  {
    if keys == [] then []
    else
      assert keys == keys[..|keys| - 1] + [keys[|keys| - 1]];
      var prefix := SortBy(keys[..|keys| - 1], rank);
      InsertKeepsSorted(keys[|keys| - 1], prefix, rank);
      InsertBy(keys[|keys| - 1], prefix, rank)
  }

  /** `getBigDecimal`: null is no number; otherwise `new BigDecimal(String.valueOf(value))`. */
  function GetBigDecimal(value: Option<string>): (r: Option<Decimal>)
    ensures value.None? ==> r.None?
    ensures value.Some? ==> r == ParseDecimal(value.value)
    ensures r.Some? ==> Valid(r.value)
  {
    match value
    case None => None
    case Some(text) => ParseDecimal(text)
  }

  /** The last stages of `getNumbers`: the values of `keys`, in that order, that are decimals. */
  function Operands(attributes: AttrMap, keys: seq<string>): (numbers: seq<Decimal>)
    requires forall k :: k in keys ==> k in attributes
    ensures |numbers| <= |keys|
    ensures forall i :: 0 <= i < |numbers| ==> Valid(numbers[i])
  {
    if keys == [] then []
    else
      (match GetBigDecimal(attributes[keys[0]]) case Some(d) => [d] case None => [])
      + Operands(attributes, keys[1..])
  }

  /** The keys `getNumbers` reads, in the order it reads them: the `sorted` stage compares
      `Integer.parseInt` of the keys, and keys of equal value keep their iteration order, as
      the stable sort of a sequential stream does. */
  function OperandKeys(order: seq<string>): (keys: seq<string>)
    ensures SortedBy(keys, KeyValue) && multiset(keys) == multiset(IntKeys(order))
    ensures forall k :: k in keys <==> k in order && k != MODE && IsIntValue(k)
  {
    var keys := SortBy(IntKeys(order), KeyValue);
    assert forall k :: k in keys <==> k in IntKeys(order) by {
      forall k ensures k in keys <==> k in IntKeys(order) {
        assert k in keys <==> k in multiset(keys);
      }
    }
    keys
  }

  /** The comparator of the `sorted` stage as written: `key1 - key2` in int arithmetic. */
  function CompareAsWritten(key1: string, key2: string): (c: int)
    ensures INT_MIN <= c <= INT_MAX
    ensures INT_MIN <= KeyValue(key1) - KeyValue(key2) <= INT_MAX ==> c == KeyValue(key1) - KeyValue(key2)
  {
    Wrap32(KeyValue(key1) - KeyValue(key2))
  }

  /** Int keys further apart than the int range compare the wrong way round: the larger key
      is reported as the smaller one, so its operand can be read first. */
  lemma ComparatorOverflows(key1: string, key2: string)
    requires IsIntValue(key1) && IsIntValue(key2)
    requires KeyValue(key1) - KeyValue(key2) > INT_MAX
    ensures KeyValue(key1) > KeyValue(key2) && CompareAsWritten(key1, key2) < 0
  {
  }

  /** The keys "2147483647" and "-1" (the texts of Integer.MAX_VALUE and of -1) are such a
      pair. */
  lemma ExtremeKeysCompareBackwards()
    ensures IsIntValue(IntToString(INT_MAX)) && IsIntValue(IntToString(-1))
    ensures KeyValue(IntToString(INT_MAX)) == INT_MAX && KeyValue(IntToString(-1)) == -1
    ensures CompareAsWritten(IntToString(INT_MAX), IntToString(-1)) < 0
  {
    ParseIntegerRoundTrip(INT_MAX);
    ParseIntegerRoundTrip(-1);
    ComparatorOverflows(IntToString(INT_MAX), IntToString(-1));
  }

  /** `getNumbers`. */
  function GetNumbers(attributes: AttrMap, order: seq<string>): (numbers: seq<Decimal>)
    requires Enumerates(order, attributes)
    ensures forall i :: 0 <= i < |numbers| ==> Valid(numbers[i])
  {
    var keys := OperandKeys(order);
    assert forall k :: k in keys ==> k in attributes by {
      forall k | k in keys ensures k in attributes {
        assert k in multiset(keys);
      }
    }
    Operands(attributes, keys)
  }

  /** The keys among `keys`, in their order, whose value is a decimal. */
  function DecimalKeys(attributes: AttrMap, keys: seq<string>): (r: seq<string>)
    requires forall k :: k in keys ==> k in attributes
    ensures |r| <= |keys| && multiset(r) <= multiset(keys)
    ensures forall k :: k in r <==> k in keys && GetBigDecimal(attributes[k]).Some?
  {
    if keys == [] then []
    else
      var rest := DecimalKeys(attributes, keys[1..]);
      var r := if GetBigDecimal(attributes[keys[0]]).Some? then [keys[0]] + rest else rest;
      DecimalKeysStep(attributes, keys, rest, r);
      r
  }

  lemma DecimalKeysStep(attributes: AttrMap, keys: seq<string>, rest: seq<string>, r: seq<string>)
    requires keys != [] && forall k :: k in keys ==> k in attributes
    requires |rest| <= |keys| - 1 && multiset(rest) <= multiset(keys[1..])
    requires forall k :: k in rest <==> k in keys[1..] && GetBigDecimal(attributes[k]).Some?
    requires r == if GetBigDecimal(attributes[keys[0]]).Some? then [keys[0]] + rest else rest
    ensures |r| <= |keys| && multiset(r) <= multiset(keys)
    ensures forall k :: k in r <==> k in keys && GetBigDecimal(attributes[k]).Some?
  {
    assert keys == [keys[0]] + keys[1..];
    assert forall k :: k in keys <==> k == keys[0] || k in keys[1..];
  }

  /** `numbers` are the decimal values of `names`, one each, in the same order. */
  predicate ValuesOf(attributes: AttrMap, names: seq<string>, numbers: seq<Decimal>) {
    |numbers| == |names|
    && forall i :: 0 <= i < |names| ==> names[i] in attributes && GetBigDecimal(attributes[names[i]]) == Some(numbers[i])
  }

  lemma ValuesOfCons(attributes: AttrMap, k: string, d: Decimal, names: seq<string>, numbers: seq<Decimal>)
    requires ValuesOf(attributes, names, numbers) && k in attributes && GetBigDecimal(attributes[k]) == Some(d)
    ensures ValuesOf(attributes, [k] + names, [d] + numbers)
  {
    var names', numbers' := [k] + names, [d] + numbers;
    forall i | 0 <= i < |names'|
      ensures names'[i] in attributes && GetBigDecimal(attributes[names'[i]]) == Some(numbers'[i])
    {
      if i > 0 {
        assert names'[i] == names[i - 1] && numbers'[i] == numbers[i - 1];
      }
    }
  }

  /** The operands are the values of the keys DecimalKeys keeps, one each, in the same order. */
  lemma {:induction false} OperandsAreValues(attributes: AttrMap, keys: seq<string>)
    requires forall k :: k in keys ==> k in attributes
    ensures ValuesOf(attributes, DecimalKeys(attributes, keys), Operands(attributes, keys))
  {
    if keys != [] {
      var tail := keys[1..];
      OperandsAreValues(attributes, tail);
      var value := GetBigDecimal(attributes[keys[0]]);
      if value.Some? {
        ValuesOfCons(attributes, keys[0], value.value, DecimalKeys(attributes, tail), Operands(attributes, tail));
      }
    }
  }

  /** Dropping keys keeps the rest in order. */
  lemma {:induction false} DecimalKeysSorted(attributes: AttrMap, keys: seq<string>, rank: string -> int)
    requires forall k :: k in keys ==> k in attributes
    requires SortedBy(keys, rank)
    ensures SortedBy(DecimalKeys(attributes, keys), rank)
  {
    if keys != [] {
      var tail := keys[1..];
      SortedSplit(keys, rank);
      DecimalKeysSorted(attributes, tail, rank);
      var rest := DecimalKeys(attributes, tail);
      assert forall x :: x in rest ==> x in tail;
      if GetBigDecimal(attributes[keys[0]]).Some? {
        SortedCons(keys[0], rest, rank);
      }
    }
  }

  /** A sorted list's tail is sorted and bounded below by its head. */
  lemma SortedSplit(keys: seq<string>, rank: string -> int)
    requires SortedBy(keys, rank) && keys != []
    ensures SortedBy(keys[1..], rank)
    ensures forall x :: x in keys[1..] ==> rank(keys[0]) <= rank(x)
  {
    var tail := keys[1..];
    forall i, j | 0 <= i < j < |tail| ensures rank(tail[i]) <= rank(tail[j]) {
      assert tail[i] == keys[i + 1] && tail[j] == keys[j + 1];
    }
    forall x | x in tail ensures rank(keys[0]) <= rank(x) {
      var m :| 0 <= m < |tail| && tail[m] == x;
      assert tail[m] == keys[m + 1];
    }
  }

  lemma SortedCons(k: string, rest: seq<string>, rank: string -> int)
    requires SortedBy(rest, rank) && forall x :: x in rest ==> rank(k) <= rank(x)
    ensures SortedBy([k] + rest, rank)
  {
    var r := [k] + rest;
    forall i, j | 0 <= i < j < |r| ensures rank(r[i]) <= rank(r[j]) {
      assert r[j] == rest[j - 1];
      if i > 0 {
        assert r[i] == rest[i - 1];
      }
    }
  }

  /** Distinct keys occur once each in their multiset. */
  lemma {:induction false} DistinctOnce(order: seq<string>)
    requires forall i, j :: 0 <= i < j < |order| ==> order[i] != order[j]
    ensures forall k :: multiset(order)[k] <= 1
  {
    if order != [] {
      DistinctOnce(order[1..]);
      assert order == [order[0]] + order[1..];
      assert order[0] !in order[1..];
    }
  }

  /** A key that occurs at two positions occurs twice in the multiset. */
  lemma RepeatCountsTwice(keys: seq<string>, i: int, j: int)
    requires 0 <= i < j < |keys|
    ensures keys[i] == keys[j] ==> multiset(keys)[keys[i]] >= 2
  {
    if keys[i] == keys[j] {
      assert keys == keys[..j] + keys[j..];
      assert keys[i] in keys[..j] && keys[j] in keys[j..];
    }
  }

  /** Keys that occur once each in their multiset are distinct. */
  lemma OnceMeansDistinct(keys: seq<string>)
    requires forall k :: multiset(keys)[k] <= 1
    ensures forall i, j :: 0 <= i < j < |keys| ==> keys[i] != keys[j]
  {
    forall i, j | 0 <= i < j < |keys| ensures keys[i] != keys[j] {
      RepeatCountsTwice(keys, i, j);
    }
  }

  /** `getNumbers` yields the values of exactly the entries other than `mode` that are operands,
      each once, in ascending order of their int keys. */
  lemma GetNumbersValues(attributes: AttrMap, order: seq<string>)
    requires Enumerates(order, attributes)
    ensures var keys, numbers := DecimalKeys(attributes, OperandKeys(order)), GetNumbers(attributes, order);
      && (forall k :: k in keys <==> k in attributes && k != MODE && Usable(attributes, k))
      && (forall i, j :: 0 <= i < j < |keys| ==> keys[i] != keys[j])
      && SortedBy(keys, KeyValue)
      && ValuesOf(attributes, keys, numbers)
  {
    var sorted := OperandKeys(order);
    var keys := DecimalKeys(attributes, sorted);
    OperandsAreValues(attributes, sorted);
    DecimalKeysSorted(attributes, sorted, KeyValue);
    DistinctOnce(order);
    assert multiset(keys) <= multiset(order);
    OnceMeansDistinct(keys);
  }

  // ---------------------------------------------------------------------------------------
  // The fold

  predicate AllValid(numbers: seq<Decimal>) {
    forall i :: 0 <= i < |numbers| ==> Valid(numbers[i])
  }

  /** One application of the operator; None where BigDecimal throws ArithmeticException. */
  function Apply(op: Op, x: Decimal, y: Decimal): (r: Option<Decimal>)
    requires Valid(x) && Valid(y)
    ensures r.Some? ==> Valid(r.value)
  {
    match op
    case Sum => Add(x, y)
    case Sub => Subtract(x, y)
    case Multiply => Decimals.Multiply(x, y)
    case Divide => Decimals.Divide(x, y)
  }

  /** acc op rest[0] op rest[1] ..., left to right, stopping at the first failure. */
  function FoldFrom(acc: Decimal, rest: seq<Decimal>, op: Op): (r: Option<Decimal>)
    requires Valid(acc) && AllValid(rest)
    ensures r.Some? ==> Valid(r.value)
    decreases |rest|
  {
    if rest == [] then Some(acc)
    else
      match Apply(op, acc, rest[0])
      case None => None
      case Some(next) => FoldFrom(next, rest[1..], op)
  }

  /** What `calc` computes: nothing for no operands, else the fold from the first operand. */
  function Fold(numbers: seq<Decimal>, op: Op): (r: Option<Decimal>)
    requires AllValid(numbers)
    ensures r.Some? ==> Valid(r.value)
  {
    if numbers == [] then None else FoldFrom(numbers[0], numbers[1..], op)
  }

  /** `calc`: the accumulator starts empty, takes the first operand, then absorbs each further
      operand; an ArithmeticException returns empty at once. */
  method Calc(numbers: seq<Decimal>, op: Op) returns (r: Option<Decimal>)
    requires AllValid(numbers)
    ensures r == Fold(numbers, op)
  {
    var result: Option<Decimal> := None;
    var i := 0;
    while i < |numbers|
      invariant 0 <= i <= |numbers|
      invariant result.None? <==> i == 0
      invariant i > 0 ==> Valid(result.value) && FoldFrom(result.value, numbers[i..], op) == Fold(numbers, op)
    {
      if result.None? {
        result := Some(numbers[i]);
      } else {
        var next := Apply(op, result.value, numbers[i]);
        if next.None? {
          return None;
        }
        assert numbers[i..][1..] == numbers[i + 1..];
        result := next;
      }
      i := i + 1;
    }
    return result;
  }

  // ---------------------------------------------------------------------------------------
  // calculate

  /** What `calculate(operator, attributes)` returns: a sentinel or a number with two
      decimals; only `setScale` can throw, and only once the operator is known. */
  function Result(operator: string, attributes: AttrMap, order: seq<string>): (r: Outcome)
    requires Enumerates(order, attributes)
    ensures r.Returned? ==>
      || r.text in {NOT_A_NUMBER, NOT_AN_OPERATION, NOT_A_VALID_MATH}
      || (|r.text| >= 4 && r.text[|r.text| - 3] == '.')
    ensures r.Thrown? ==> OperatorOf(operator).Some?
    ensures OperatorOf(operator).None? ==> r.Returned? && r.text in {NOT_A_NUMBER, NOT_AN_OPERATION}
    ensures IgnoreInvalid(attributes) ==> r != Returned(NOT_A_NUMBER)
  {
    var numbers := GetNumbers(attributes, order);
    var expected := |attributes| - PositionalAttributesCount(attributes);
    if !IgnoreInvalid(attributes) && |numbers| != expected then Returned(NOT_A_NUMBER)
    else
      match OperatorOf(operator)
      case None => Returned(NOT_AN_OPERATION)
      case Some(op) =>
        match Fold(numbers, op)
        case None => Returned(NOT_A_VALID_MATH)
        case Some(value) =>
          match SetScale2Ceiling(value)
          case None => Thrown
          case Some(rounded) => Returned(RenderHundredths(rounded.unscaled))
  }

  /** `calculate`. */
  method Calculate(operator: string, attributes: AttrMap, order: seq<string>) returns (r: Outcome)
    requires Enumerates(order, attributes)
    ensures r == Result(operator, attributes, order)
  {
    var ignoreInvalid := IgnoreInvalid(attributes);
    var numbers := GetNumbers(attributes, order);
    var expectedNumbersCount := |attributes| - PositionalAttributesCount(attributes);
    if !ignoreInvalid && |numbers| != expectedNumbersCount {
      return Returned(NOT_A_NUMBER);
    }
    var op := OperatorOf(operator);
    if op.None? {
      return Returned(NOT_AN_OPERATION);
    }
    var value := Calc(numbers, op.value);
    if value.None? {
      return Returned(NOT_A_VALID_MATH);
    }
    var rounded := SetScale2Ceiling(value.value);
    if rounded.None? {
      return Thrown;
    }
    return Returned(RenderHundredths(rounded.value.unscaled));
  }

  // ---------------------------------------------------------------------------------------
  // The strict count check

  /** An entry `getNumbers` turns into an operand: an int key and a decimal value. */
  predicate Usable(attributes: AttrMap, key: string)
    requires key in attributes
  {
    IsIntValue(key) && GetBigDecimal(attributes[key]).Some?
  }

  /** Every operand key whose value is a decimal yields one operand, and no other key does. */
  lemma {:induction false} OperandsCount(attributes: AttrMap, keys: seq<string>)
    requires forall k :: k in keys ==> k in attributes
    ensures |Operands(attributes, keys)| == |keys|
      <==> forall k :: k in keys ==> GetBigDecimal(attributes[k]).Some?
  {
    if keys != [] {
      OperandsCount(attributes, keys[1..]);
      assert forall k :: k in keys <==> k == keys[0] || k in keys[1..];
    }
  }

  /** With distinct keys, the int keys are all keys but `mode` exactly when every other key is
      an int. */
  lemma {:induction false} IntKeysCount(order: seq<string>)
    requires forall i, j :: 0 <= i < j < |order| ==> order[i] != order[j]
    ensures |IntKeys(order)| <= |order| - (if MODE in order then 1 else 0)
    ensures |IntKeys(order)| == |order| - (if MODE in order then 1 else 0)
      <==> forall k :: k in order && k != MODE ==> IsIntValue(k)
  {
    if order != [] {
      IntKeysCount(order[1..]);
      assert order[0] !in order[1..];
      assert forall k :: k in order <==> k == order[0] || k in order[1..];
    }
  }

  /** A list of distinct keys has as many elements as the set of its keys. */
  lemma {:induction false} DistinctCount(order: seq<string>)
    requires forall i, j :: 0 <= i < j < |order| ==> order[i] != order[j]
    ensures |set k | k in order| == |order|
  {
    if order != [] {
      DistinctCount(order[1..]);
      assert order[0] !in order[1..];
      assert (set k | k in order) == {order[0]} + (set k | k in order[1..]);
    }
  }

  lemma EnumerationCount(order: seq<string>, attributes: AttrMap)
    requires Enumerates(order, attributes)
    ensures |order| == |attributes|
  {
    DistinctCount(order);
    assert (set k | k in order) == attributes.Keys;
  }

  /** The count check of `calculate` passes exactly when every entry but `mode` is an operand. */
  lemma CountCheck(attributes: AttrMap, order: seq<string>)
    requires Enumerates(order, attributes)
    ensures |GetNumbers(attributes, order)| <= |attributes| - PositionalAttributesCount(attributes)
    ensures |GetNumbers(attributes, order)| == |attributes| - PositionalAttributesCount(attributes)
      <==> forall k :: k in attributes && k != MODE ==> Usable(attributes, k)
  {
    var keys := OperandKeys(order);
    var ints := IntKeys(order);
    assert |keys| == |multiset(keys)| == |multiset(ints)| == |ints|;
    assert forall k :: k in keys <==> k in ints by {
      forall k ensures k in keys <==> k in ints {
        assert k in keys <==> k in multiset(keys);
        assert k in ints <==> k in multiset(ints);
      }
    }
    EnumerationCount(order, attributes);
    IntKeysCount(order);
    OperandsCount(attributes, keys);
  }

  /** Strict mode answers "NaN" exactly when some entry other than `mode` is not an operand (its
      key is not an int or its value is null or not a decimal); lenient mode never does. A
      single bad operand therefore fails the whole call. */
  lemma NotANumberIff(operator: string, attributes: AttrMap, order: seq<string>)
    requires Enumerates(order, attributes)
    ensures Result(operator, attributes, order) == Returned(NOT_A_NUMBER)
      <==> !IgnoreInvalid(attributes) && exists k :: k in attributes && k != MODE && !Usable(attributes, k)
  {
    CountCheck(attributes, order);
    if IgnoreInvalid(attributes) || |GetNumbers(attributes, order)| == |attributes| - PositionalAttributesCount(attributes) {
      PassedCheckIsNotNaN(operator, attributes, order);
    }
  }

  /** Past the count check, "NaN" is never the answer. */
  lemma PassedCheckIsNotNaN(operator: string, attributes: AttrMap, order: seq<string>)
    requires Enumerates(order, attributes)
    requires IgnoreInvalid(attributes) || |GetNumbers(attributes, order)| == |attributes| - PositionalAttributesCount(attributes)
    ensures Result(operator, attributes, order) != Returned(NOT_A_NUMBER)
  {
  }

  /** An unknown operator is reported only once the count check has passed. */
  lemma UnknownOperator(operator: string, attributes: AttrMap, order: seq<string>)
    requires Enumerates(order, attributes) && OperatorOf(operator).None?
    ensures Result(operator, attributes, order) == Returned(NOT_AN_OPERATION)
      <==> IgnoreInvalid(attributes) || forall k :: k in attributes && k != MODE ==> Usable(attributes, k)
    ensures Result(operator, attributes, order) == Returned(NOT_AN_OPERATION)
      || Result(operator, attributes, order) == Returned(NOT_A_NUMBER)
  {
    CountCheck(attributes, order);
  }

  // ---------------------------------------------------------------------------------------
  // What the fold computes

  /** Division by a zero operand anywhere after the first makes the whole fold fail. */
  lemma {:induction false} ZeroDivisorFails(acc: Decimal, rest: seq<Decimal>)
    requires Valid(acc) && AllValid(rest)
    requires exists i :: 0 <= i < |rest| && rest[i].unscaled == 0
    ensures FoldFrom(acc, rest, Divide) == None
    decreases |rest|
  {
    if rest[0].unscaled != 0 {
      var next := Apply(Divide, acc, rest[0]);
      if next.Some? {
        var i :| 0 <= i < |rest| && rest[i].unscaled == 0;
        assert rest[1..][i - 1] == rest[i];
        ZeroDivisorFails(next.value, rest[1..]);
      }
    }
  }

  /** The count of units of 10^-s in every number of the list, added up. */
  function SumUnits(numbers: seq<Decimal>, s: int): int
    requires forall i :: 0 <= i < |numbers| ==> numbers[i].scale <= s
  {
    if numbers == [] then 0 else Units(numbers[0], s) + SumUnits(numbers[1..], s)
  }

  /** The count of units of 10^-s in every number of the list, multiplied together. */
  function ProductUnits(numbers: seq<Decimal>, s: int): int
    requires forall i :: 0 <= i < |numbers| ==> numbers[i].scale <= s
  {
    if numbers == [] then 1 else Units(numbers[0], s) * ProductUnits(numbers[1..], s)
  }

  /** A successful sum is exact: at any scale s fine enough for every operand, it counts the
      sum of their counts; a difference counts the first minus all the others. */
  lemma {:induction false} FoldAddExact(acc: Decimal, rest: seq<Decimal>, op: Op, s: int)
    requires Valid(acc) && AllValid(rest) && (op == Sum || op == Sub)
    requires acc.scale <= s && forall i :: 0 <= i < |rest| ==> rest[i].scale <= s
    requires FoldFrom(acc, rest, op).Some?
    ensures FoldFrom(acc, rest, op).value.scale <= s
    ensures Units(FoldFrom(acc, rest, op).value, s)
      == Units(acc, s) + (if op == Sum then SumUnits(rest, s) else -SumUnits(rest, s))
    decreases |rest|
  {
    if rest != [] {
      var next := Apply(op, acc, rest[0]).value;
      if op == Sum {
        AddExact(acc, rest[0], s);
      } else {
        SubtractExact(acc, rest[0], s);
        assert next.scale == Add(acc, Negate(rest[0])).value.scale;
      }
      FoldAddExact(next, rest[1..], op, s);
    }
  }

  /** One step of the product: a factor counted at scale t times one counted at scale s is the
      product counted at scale t + s, also when the scale leaves the int range for a zero factor. */
  lemma MultiplyStep(x: Decimal, y: Decimal, s: int, t: int)
    requires Valid(x) && Valid(y) && s >= 0 && t >= 0 && x.scale <= t && y.scale <= s
    requires Decimals.Multiply(x, y).Some?
    ensures Decimals.Multiply(x, y).value.scale <= t + s
    ensures Units(Decimals.Multiply(x, y).value, t + s) == Units(x, t) * Units(y, s)
  {
    if ScaleInRange(x.scale + y.scale) {
      MultiplyExact(x, y, t, s);
    }
  }

  /** A successful product is exact: with the first operand counted at scale t and every other
      at scale s (both at least 0 and fine enough), it counts the product of the counts at
      scale t + s * (number of further operands). */
  lemma FoldMultiplyExact(acc: Decimal, rest: seq<Decimal>, s: int, t: int)
    requires Valid(acc) && AllValid(rest) && s >= 0 && t >= 0
    requires acc.scale <= t && forall i :: 0 <= i < |rest| ==> rest[i].scale <= s
    requires FoldFrom(acc, rest, Multiply).Some?
    ensures FoldFrom(acc, rest, Multiply).value.scale <= t + |rest| * s
    ensures Units(FoldFrom(acc, rest, Multiply).value, t + |rest| * s) == Units(acc, t) * ProductUnits(rest, s)
  {
    FoldMultiplyAt(acc, rest, s, t, t + |rest| * s);
  }

  lemma ScaleStep(t: int, s: int, n: nat)
    ensures t + (n + 1) * s == (t + s) + n * s
  {
  }

  /** FoldMultiplyExact with the final scale u fixed through the induction. */
  lemma {:induction false} FoldMultiplyAt(acc: Decimal, rest: seq<Decimal>, s: int, t: int, u: int)
    requires Valid(acc) && AllValid(rest) && s >= 0 && t >= 0 && u == t + |rest| * s
    requires acc.scale <= t && forall i :: 0 <= i < |rest| ==> rest[i].scale <= s
    requires FoldFrom(acc, rest, Multiply).Some?
    ensures FoldFrom(acc, rest, Multiply).value.scale <= u
    ensures Units(FoldFrom(acc, rest, Multiply).value, u) == Units(acc, t) * ProductUnits(rest, s)
    decreases |rest|
  {
    if rest != [] {
      var y := rest[0];
      var next := Decimals.Multiply(acc, y).value;
      assert FoldFrom(acc, rest, Multiply) == FoldFrom(next, rest[1..], Multiply);
      MultiplyStep(acc, y, s, t);
      ScaleStep(t, s, |rest[1..]|);
      FoldMultiplyAt(next, rest[1..], s, t + s, u);
      MulAssoc(Units(acc, t), Units(y, s), ProductUnits(rest[1..], s));
    }
  }

  // ---------------------------------------------------------------------------------------
  // What calculate returns

  /** With no operands (and the count check passed) a known operator gives "NaVM". */
  lemma NoOperandsIsNotValidMath(operator: string, attributes: AttrMap, order: seq<string>)
    requires Enumerates(order, attributes) && OperatorOf(operator).Some?
    requires GetNumbers(attributes, order) == []
    requires IgnoreInvalid(attributes) || |attributes| == PositionalAttributesCount(attributes)
    ensures Result(operator, attributes, order) == Returned(NOT_A_VALID_MATH)
  {
  }

  /** `divide` with a zero operand after the first gives "NaVM" once the count check passed. */
  lemma ZeroDivisorIsNotValidMath(attributes: AttrMap, order: seq<string>)
    requires Enumerates(order, attributes)
    requires IgnoreInvalid(attributes) || forall k :: k in attributes && k != MODE ==> Usable(attributes, k)
    requires var numbers := GetNumbers(attributes, order);
      exists i :: 1 <= i < |numbers| && numbers[i].unscaled == 0
    ensures Result(DIVIDE, attributes, order) == Returned(NOT_A_VALID_MATH)
  {
    CountCheck(attributes, order);
    var numbers := GetNumbers(attributes, order);
    var i :| 1 <= i < |numbers| && numbers[i].unscaled == 0;
    assert numbers[1..][i - 1] == numbers[i];
    ZeroDivisorFails(numbers[0], numbers[1..]);
  }

  /** A computed value is printed as the least multiple of 0.01 not below it, with exactly two
      fraction digits, in a text that reads back as that multiple. */
  lemma SuccessRoundsUp(operator: string, attributes: AttrMap, order: seq<string>)
    requires Enumerates(order, attributes) && OperatorOf(operator).Some?
    requires IgnoreInvalid(attributes) || forall k :: k in attributes && k != MODE ==> Usable(attributes, k)
    requires Fold(GetNumbers(attributes, order), OperatorOf(operator).value).Some?
    ensures var value := Fold(GetNumbers(attributes, order), OperatorOf(operator).value).value;
      SetScale2Ceiling(value).Some? ==>
        var r := SetScale2Ceiling(value).value.unscaled;
        && Result(operator, attributes, order) == Returned(RenderHundredths(r))
        && IsCeilingHundredths(value, r)
        && ParseDecimal(RenderHundredths(r)) == Some(Decimal(r, 2))
  {
    CountCheck(attributes, order);
    var value := Fold(GetNumbers(attributes, order), OperatorOf(operator).value).value;
    if SetScale2Ceiling(value).Some? {
      SetScale2CeilingRoundsUp(value);
      RenderHundredthsRoundTrip(SetScale2Ceiling(value).value.unscaled);
    }
  }

  // ---------------------------------------------------------------------------------------
  // Maps of the shape the calculator's tests use

  /** The keys "0" and "1" are ints, in that order. */
  lemma IndexKeys()
    ensures IsIntValue("0") && KeyValue("0") == 0
    ensures IsIntValue("1") && KeyValue("1") == 1
  {
    assert DigitsValue("0") == 0 && DigitsValue("1") == 1;
  }

  /** Entries "0" and "1" holding the integers a and b are read as a, then b, in every
      iteration order of the map. */
  lemma TwoIntegerOperands(attributes: AttrMap, order: seq<string>, a: int, b: int)
    requires attributes == map["0" := Some(IntToString(a)), "1" := Some(IntToString(b))]
    requires Enumerates(order, attributes)
    ensures GetNumbers(attributes, order) == [Decimal(a, 0), Decimal(b, 0)]
  {
    IntegerEntries(attributes, a, b);
    TwoOperands(attributes, order, Decimal(a, 0), Decimal(b, 0));
  }

  /** With exactly the entries "0" and "1", both operands, their values are read in key order. */
  lemma TwoOperands(attributes: AttrMap, order: seq<string>, x: Decimal, y: Decimal)
    requires Enumerates(order, attributes) && attributes.Keys == {"0", "1"}
    requires Usable(attributes, "0") && GetBigDecimal(attributes["0"]) == Some(x)
    requires Usable(attributes, "1") && GetBigDecimal(attributes["1"]) == Some(y)
    ensures GetNumbers(attributes, order) == [x, y]
  {
    var keys := DecimalKeys(attributes, OperandKeys(order));
    GetNumbersValues(attributes, order);
    KeysOfTwo(attributes, keys);
    TwoKeysInOrder(keys);
    ValuesOfTwo(attributes, keys, GetNumbers(attributes, order), x, y);
  }

  lemma IntegerEntries(attributes: AttrMap, a: int, b: int)
    requires attributes == map["0" := Some(IntToString(a)), "1" := Some(IntToString(b))]
    ensures attributes.Keys == {"0", "1"} && |attributes| == 2 && MODE !in attributes
    ensures Usable(attributes, "0") && GetBigDecimal(attributes["0"]) == Some(Decimal(a, 0))
    ensures Usable(attributes, "1") && GetBigDecimal(attributes["1"]) == Some(Decimal(b, 0))
  {
    IndexKeys();
    ParseDecimalInteger(a);
    ParseDecimalInteger(b);
  }

  lemma KeysOfTwo(attributes: AttrMap, keys: seq<string>)
    requires attributes.Keys == {"0", "1"} && Usable(attributes, "0") && Usable(attributes, "1")
    requires forall k :: k in keys <==> k in attributes && k != MODE && Usable(attributes, k)
    ensures forall k :: k in keys <==> k == "0" || k == "1"
  {
  }

  /** Two distinct keys, "0" and "1", sorted by their int values, are "0" then "1". */
  lemma TwoKeysInOrder(keys: seq<string>)
    requires forall k :: k in keys <==> k == "0" || k == "1"
    requires forall i, j :: 0 <= i < j < |keys| ==> keys[i] != keys[j]
    requires SortedBy(keys, KeyValue)
    ensures keys == ["0", "1"]
  {
    IndexKeys();
    DistinctCount(keys);
    assert (set k | k in keys) == {"0", "1"};
    assert keys[0] in keys && keys[1] in keys;
  }

  lemma ValuesOfTwo(attributes: AttrMap, keys: seq<string>, numbers: seq<Decimal>, x: Decimal, y: Decimal)
    requires keys == ["0", "1"] && ValuesOf(attributes, keys, numbers)
    requires "0" in attributes && GetBigDecimal(attributes["0"]) == Some(x)
    requires "1" in attributes && GetBigDecimal(attributes["1"]) == Some(y)
    ensures numbers == [x, y]
  {
    assert GetBigDecimal(attributes[keys[0]]) == Some(numbers[0]);
    assert GetBigDecimal(attributes[keys[1]]) == Some(numbers[1]);
  }

  /** Two integer operands under an operator whose step succeeds at scale 0: the result is
      printed as that integer with two zero fraction digits. */
  lemma TwoIntegerResult(attributes: AttrMap, order: seq<string>, a: int, b: int, operator: string, value: int)
    requires attributes == map["0" := Some(IntToString(a)), "1" := Some(IntToString(b))]
    requires Enumerates(order, attributes) && OperatorOf(operator).Some?
    requires Apply(OperatorOf(operator).value, Decimal(a, 0), Decimal(b, 0)) == Some(Decimal(value, 0))
    ensures Result(operator, attributes, order) == Returned(RenderHundredths(value * 100))
  {
    TwoIntegerOperands(attributes, order, a, b);
    IntegerEntries(attributes, a, b);
    FoldTwo(Decimal(a, 0), Decimal(b, 0), OperatorOf(operator).value);
    IntegerResult(operator, attributes, order, Decimal(value, 0));
  }

  /** Two integer operands under an operator whose step throws: "NaVM". */
  lemma TwoIntegerFailure(attributes: AttrMap, order: seq<string>, a: int, b: int, operator: string)
    requires attributes == map["0" := Some(IntToString(a)), "1" := Some(IntToString(b))]
    requires Enumerates(order, attributes) && OperatorOf(operator).Some?
    requires Apply(OperatorOf(operator).value, Decimal(a, 0), Decimal(b, 0)).None?
    ensures Result(operator, attributes, order) == Returned(NOT_A_VALID_MATH)
  {
    TwoIntegerOperands(attributes, order, a, b);
    IntegerEntries(attributes, a, b);
    FoldTwo(Decimal(a, 0), Decimal(b, 0), OperatorOf(operator).value);
  }

  /** The four operators on integers at scale 0: sum, difference and product are integers, and
      division by zero throws. */
  lemma IntegerArithmetic(a: int, b: int)
    ensures OperatorOf(SUM) == Some(Sum) && OperatorOf(SUB) == Some(Sub)
    ensures OperatorOf(MULTIPLY) == Some(Multiply) && OperatorOf(DIVIDE) == Some(Divide)
    ensures Apply(Sum, Decimal(a, 0), Decimal(b, 0)) == Some(Decimal(a + b, 0))
    ensures Apply(Sub, Decimal(a, 0), Decimal(b, 0)) == Some(Decimal(a - b, 0))
    ensures Apply(Multiply, Decimal(a, 0), Decimal(b, 0)) == Some(Decimal(a * b, 0))
    ensures b == 0 ==> Apply(Divide, Decimal(a, 0), Decimal(b, 0)).None?
  {
    OperatorLiterals();
    var x, y := Decimal(a, 0), Decimal(b, 0);
    assert Add(x, y) == Some(Decimal(a + b, 0));
    assert Negate(y) == Decimal(-b, 0);
    assert Add(x, Decimal(-b, 0)) == Some(Decimal(a + -b, 0));
    assert Decimals.Multiply(x, y) == Some(Decimal(a * b, 0));
  }

  lemma OperatorLiterals()
    ensures OperatorOf(SUM) == Some(Sum) && OperatorOf(SUB) == Some(Sub)
    ensures OperatorOf(MULTIPLY) == Some(Multiply) && OperatorOf(DIVIDE) == Some(Divide)
  {
  }

  lemma FoldOne(x: Decimal, op: Op)
    requires Valid(x)
    ensures Fold([x], op) == Some(x)
  {
    assert [x][1..] == [];
  }

  lemma FoldTwo(x: Decimal, y: Decimal, op: Op)
    requires Valid(x) && Valid(y)
    ensures Fold([x, y], op) == Apply(op, x, y)
  {
    assert [x, y][1..] == [y] && [y][1..] == [];
    var r := Apply(op, x, y);
    if r.Some? {
      assert FoldFrom(r.value, [], op) == r;
    }
  }

  /** In lenient mode or once the count check passes, an integer result v is printed as v with
      two zero fraction digits. */
  lemma IntegerResult(operator: string, attributes: AttrMap, order: seq<string>, value: Decimal)
    requires Enumerates(order, attributes) && OperatorOf(operator).Some?
    requires IgnoreInvalid(attributes) || |GetNumbers(attributes, order)| == |attributes| - PositionalAttributesCount(attributes)
    requires Fold(GetNumbers(attributes, order), OperatorOf(operator).value) == Some(value) && value.scale == 0
    ensures Result(operator, attributes, order) == Returned(RenderHundredths(value.unscaled * 100))
  {
    IntegerHundredths(value);
  }

  /** An integer at scale 0 is rounded to itself in hundredths. */
  lemma IntegerHundredths(value: Decimal)
    requires Valid(value) && value.scale == 0
    ensures SetScale2Ceiling(value) == Some(Decimal(value.unscaled * 100, 2))
  {
    assert Pow10(2) == 100;
  }

  /** In lenient mode an entry "0" whose text has no digit is skipped, and every operator works
      on the integer b of entry "1" alone. */
  lemma LenientSkipsNonNumber(attributes: AttrMap, order: seq<string>, text: string, b: int, operator: string)
    requires attributes == map[MODE := Some(IGNORE_INVALID), "0" := Some(text), "1" := Some(IntToString(b))]
    requires forall i :: 0 <= i < |text| ==> !IsDigit(text[i])
    requires Enumerates(order, attributes) && OperatorOf(operator).Some?
    ensures Result(operator, attributes, order) == Returned(RenderHundredths(b * 100))
  {
    LenientEntries(attributes, text, b);
    OneOperand(attributes, order, Decimal(b, 0));
    FoldOne(Decimal(b, 0), OperatorOf(operator).value);
    IntegerResult(operator, attributes, order, Decimal(b, 0));
  }

  lemma LenientEntries(attributes: AttrMap, text: string, b: int)
    requires attributes == map[MODE := Some(IGNORE_INVALID), "0" := Some(text), "1" := Some(IntToString(b))]
    requires forall i :: 0 <= i < |text| ==> !IsDigit(text[i])
    ensures IgnoreInvalid(attributes) && attributes.Keys == {MODE, "0", "1"}
    ensures !Usable(attributes, "0")
    ensures Usable(attributes, "1") && GetBigDecimal(attributes["1"]) == Some(Decimal(b, 0))
  {
    IndexKeys();
    NoDigitNoNumber(text);
    ParseDecimalInteger(b);
  }

  /** With entries `mode`, "0" and "1", of which only "1" is an operand, its value is the one
      number read. */
  lemma OneOperand(attributes: AttrMap, order: seq<string>, y: Decimal)
    requires Enumerates(order, attributes) && attributes.Keys == {MODE, "0", "1"}
    requires !Usable(attributes, "0")
    requires Usable(attributes, "1") && GetBigDecimal(attributes["1"]) == Some(y)
    ensures GetNumbers(attributes, order) == [y]
  {
    var keys := DecimalKeys(attributes, OperandKeys(order));
    GetNumbersValues(attributes, order);
    KeysOfOne(attributes, keys);
    OnlyKey(keys, "1");
    ValuesOfOne(attributes, keys, GetNumbers(attributes, order), y);
  }

  /** Distinct keys that are all one key are that key alone. */
  lemma OnlyKey(keys: seq<string>, key: string)
    requires forall k :: k in keys <==> k == key
    requires forall i, j :: 0 <= i < j < |keys| ==> keys[i] != keys[j]
    ensures keys == [key]
  {
    DistinctCount(keys);
    assert (set k | k in keys) == {key};
  }

  lemma ValuesOfOne(attributes: AttrMap, keys: seq<string>, numbers: seq<Decimal>, y: Decimal)
    requires keys == ["1"] && ValuesOf(attributes, keys, numbers)
    requires "1" in attributes && GetBigDecimal(attributes["1"]) == Some(y)
    ensures numbers == [y]
  {
    assert GetBigDecimal(attributes[keys[0]]) == Some(numbers[0]);
  }

  lemma KeysOfOne(attributes: AttrMap, keys: seq<string>)
    requires attributes.Keys == {MODE, "0", "1"} && !Usable(attributes, "0") && Usable(attributes, "1")
    requires forall k :: k in keys <==> k in attributes && k != MODE && Usable(attributes, k)
    ensures forall k :: k in keys <==> k == "1"
  {
  }

  /** In strict mode the same entry makes every operator answer "NaN". */
  lemma StrictRejectsNonNumber(attributes: AttrMap, order: seq<string>, text: string, b: int, operator: string)
    requires attributes == map["0" := Some(text), "1" := Some(IntToString(b))]
    requires forall i :: 0 <= i < |text| ==> !IsDigit(text[i])
    requires Enumerates(order, attributes)
    ensures Result(operator, attributes, order) == Returned(NOT_A_NUMBER)
  {
    NoDigitNoNumber(text);
    assert !Usable(attributes, "0");
    NotANumberIff(operator, attributes, order);
  }

  /** The test texts. */
  lemma TestNumerals(two: string, zero: string)
    requires two == "2" && zero == "0"
    ensures two == IntToString(2) && zero == IntToString(0)
  {
  }

  lemma TestWord(word: string)
    requires word == "not a number"
    ensures forall i :: 0 <= i < |word| ==> !IsDigit(word[i])
  {
  }

  lemma TestRendering()
    ensures RenderHundredths(400) == "4.00" && RenderHundredths(200) == "2.00"
    ensures RenderHundredths(-200) == "-2.00"
  {
    assert ZeroPad(0, 2) == "00";
  }

  /** sum of {"0": "2", "1": "2"} is "4.00", whatever the iteration order. */
  lemma TestSum(attributes: AttrMap, order: seq<string>, two: string)
    requires two == "2" && attributes == map["0" := Some(two), "1" := Some(two)]
    requires Enumerates(order, attributes)
    ensures Result(SUM, attributes, order) == Returned("4.00")
  {
    TestNumerals(two, "0");
    TestRendering();
    IntegerArithmetic(2, 2);
    TwoIntegerResult(attributes, order, 2, 2, SUM, 4);
  }

  /** subtract reads "0" before "1", whatever the iteration order: {"0": "0", "1": "2"} gives
      "-2.00" ... */
  lemma TestSubtractZeroFirst(attributes: AttrMap, order: seq<string>, two: string, zero: string)
    requires two == "2" && zero == "0" && attributes == map["0" := Some(zero), "1" := Some(two)]
    requires Enumerates(order, attributes)
    ensures Result(SUB, attributes, order) == Returned("-2.00")
  {
    assert attributes == map["0" := Some(IntToString(0)), "1" := Some(IntToString(2))] by {
      TestNumerals(two, zero);
      TestEntries(attributes, zero, two, 0, 2);
    }
    assert RenderHundredths((0 - 2) * 100) == "-2.00" by {
      TestRendering();
    }
    SubtractTwoIntegers(attributes, order, 0, 2, "-2.00");
  }

  /** ... and {"0": "2", "1": "0"} gives "2.00". */
  lemma TestSubtractZeroSecond(attributes: AttrMap, order: seq<string>, two: string, zero: string)
    requires two == "2" && zero == "0" && attributes == map["0" := Some(two), "1" := Some(zero)]
    requires Enumerates(order, attributes)
    ensures Result(SUB, attributes, order) == Returned("2.00")
  {
    assert attributes == map["0" := Some(IntToString(2)), "1" := Some(IntToString(0))] by {
      TestNumerals(two, zero);
      TestEntries(attributes, two, zero, 2, 0);
    }
    assert RenderHundredths((2 - 0) * 100) == "2.00" by {
      TestRendering();
    }
    SubtractTwoIntegers(attributes, order, 2, 0, "2.00");
  }

  lemma TestEntries(attributes: AttrMap, first: string, second: string, a: int, b: int)
    requires first == IntToString(a) && second == IntToString(b)
    requires attributes == map["0" := Some(first), "1" := Some(second)]
    ensures attributes == map["0" := Some(IntToString(a)), "1" := Some(IntToString(b))]
  {
  }

  lemma SubtractTwoIntegers(attributes: AttrMap, order: seq<string>, a: int, b: int, text: string)
    requires attributes == map["0" := Some(IntToString(a)), "1" := Some(IntToString(b))]
    requires Enumerates(order, attributes)
    requires text == RenderHundredths((a - b) * 100)
    ensures Result(SUB, attributes, order) == Returned(text)
  {
    IntegerArithmetic(a, b);
    TwoIntegerResult(attributes, order, a, b, SUB, a - b);
  }

  /** divide of {"0": "2", "1": "0"} is "NaVM". */
  lemma TestDivideByZero(attributes: AttrMap, order: seq<string>, two: string, zero: string)
    requires two == "2" && zero == "0" && attributes == map["0" := Some(two), "1" := Some(zero)]
    requires Enumerates(order, attributes)
    ensures Result(DIVIDE, attributes, order) == Returned(NOT_A_VALID_MATH)
  {
    TestNumerals(two, zero);
    IntegerArithmetic(2, 0);
    TwoIntegerFailure(attributes, order, 2, 0, DIVIDE);
  }

  /** {"mode": "ignore_invalid", "0": "not a number", "1": "2"} gives "2.00" under every
      operator; without `mode` it gives "NaN". */
  lemma TestNotANumber(order: seq<string>, two: string, word: string, operator: string)
    requires two == "2" && word == "not a number" && OperatorOf(operator).Some?
    ensures var m := map[MODE := Some(IGNORE_INVALID), "0" := Some(word), "1" := Some(two)];
      Enumerates(order, m) ==> Result(operator, m, order) == Returned("2.00")
    ensures var m := map["0" := Some(word), "1" := Some(two)];
      Enumerates(order, m) ==> Result(operator, m, order) == Returned(NOT_A_NUMBER)
  {
    TestNumerals(two, "0");
    TestWord(word);
    TestRendering();
    var m := map[MODE := Some(IGNORE_INVALID), "0" := Some(word), "1" := Some(two)];
    if Enumerates(order, m) {
      LenientSkipsNonNumber(m, order, word, 2, operator);
    }
    m := map["0" := Some(word), "1" := Some(two)];
    if Enumerates(order, m) {
      StrictRejectsNonNumber(m, order, word, 2, operator);
    }
  }
}
