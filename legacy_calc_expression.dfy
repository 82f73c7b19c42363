/** The expression calculator of the earlier revision (the root-package `CalcExpressionMacro`).
    It reads the author and the licence type from the directive or else from the whole document,
    and prints what it looked up with `String.valueOf` before checking it, so that a missing
    value becomes the text "null": a missing author is then reported as too short ("NaVA")
    rather than missing, and the check for a null author never fires. */
module LegacyCalcExpression {

  import opened Optional
  import opened Text
  import opened Directive
  import opened MathLicense
  import opened CalcExpression

  /** The lookup of `getAttribute`: the directive's entry when it has the key, otherwise the
      document's, printed with `String.valueOf`. */
  function AttributeText(attrName: string, document: AttrMap, attributes: AttrMap): (s: string)
    ensures s == ValueOf(Attributes(document, attributes).GetAttribute(attrName))
  {
    ValueOf(if attrName in attributes then attributes[attrName] else Get(document, attrName))
  }

  /** The private `getAttribute`: the looked-up text when it is not blank and, when valid values
      are listed, equals one of them. */
  method GetAttribute(attrName: string, document: AttrMap, attributes: AttrMap, validValues: seq<string>)
    returns (r: Option<string>)
    ensures r == Accepted(Some(AttributeText(attrName, document, attributes)), validValues)
  {
    var rawAttr := if attrName in attributes then attributes[attrName] else Get(document, attrName);
    var attr := ValueOf(rawAttr);
    if IsBlank(attr) {
      return None;
    }
    var valid := |validValues| == 0;
    for i := 0 to |validValues|
      invariant attr !in validValues[..i]
    {
      if attr == validValues[i] {
        return Some(attr);
      }
    }
    assert validValues[..|validValues|] == validValues;
    return if valid then Some(attr) else None;
  }

  /** The checks of `process`, in order: expression, author, licence type. */
  function Admit(document: AttrMap, attributes: AttrMap): (a: Admission)
    ensures a.Refused? ==> a.sentinel in {NOT_AN_EXPRESSION, NOT_AN_AUTHOR, NOT_A_VALID_AUTHOR, NOT_A_LICENSE}
    ensures var expression := NamedOrPositional(attributes, EXP, EXP_POSITION);
      a == Refused(NOT_AN_EXPRESSION) <==> expression.None? || IsBlank(expression.value)
    ensures a.Admitted? ==>
      && NamedOrPositional(attributes, EXP, EXP_POSITION) == Some(a.expression) && !IsBlank(a.expression)
      && AttributeText(AUTHOR, document, attributes) == a.author && !IsBlank(a.author)
      && Utf16Length(a.author) >= MIN_AUTHOR_LENGTH
      && (AttributeText(LICENSE_TYPE, document, attributes) == LICENSE_TYPE_NON_COMMERCIAL_VALUE <==> a.use == NonCommercial)
      && (AttributeText(LICENSE_TYPE, document, attributes) == LICENSE_TYPE_COMMERCIAL_VALUE <==> a.use == Commercial)
  {
    var expression := NamedOrPositional(attributes, EXP, EXP_POSITION);
    if expression.None? || IsBlank(expression.value) then Refused(NOT_AN_EXPRESSION)
    else
      var author := Accepted(Some(AttributeText(AUTHOR, document, attributes)), []);
      if author.None? then Refused(NOT_AN_AUTHOR)
      else if Utf16Length(author.value) < MIN_AUTHOR_LENGTH then Refused(NOT_A_VALID_AUTHOR)
      else
        var licenseType := Accepted(Some(AttributeText(LICENSE_TYPE, document, attributes)),
                                    [LICENSE_TYPE_COMMERCIAL_VALUE, LICENSE_TYPE_NON_COMMERCIAL_VALUE]);
        if licenseType.None? then Refused(NOT_A_LICENSE)
        else Admitted(expression.value, author.value, UseOf(licenseType.value))
  }

  /** The text `process` returns (a sentinel, or the text of the phrase node it creates). */
  function Result(document: AttrMap, attributes: AttrMap, eval: string -> Double): (r: Outcome)
    ensures r.Thrown? ==> Admit(document, attributes).Admitted?
    ensures r.Returned? && r.text in {NOT_AN_AUTHOR, NOT_A_VALID_AUTHOR, NOT_A_LICENSE}
      <==> Admit(document, attributes).Refused? && Admit(document, attributes).sentinel != NOT_AN_EXPRESSION
  {
    match Admit(document, attributes)
    case Refused(sentinel) => Returned(sentinel)
    case Admitted(expression, _, _) =>
      EvaluateIsNoCheckSentinel(eval(expression));
      Evaluate(eval(expression))
  }

  /** The confirmations `process` makes. */
  function Attestation(document: AttrMap, attributes: AttrMap): seq<Confirmation> {
    match Admit(document, attributes)
    case Refused(_) => []
    case Admitted(_, author, use) => [Confirmation(use, author)]
  }

  /** `process(parent, target, attributes)`, with `document` the attributes of the parent's
      document. */
  method Process(document: AttrMap, attributes: AttrMap, eval: string -> Double, license: License) returns (r: Outcome)
    modifies license
    ensures r == Result(document, attributes, eval)
    ensures license.confirmations == old(license.confirmations) + Attestation(document, attributes)
  {
    var expression := NamedOrPositional(attributes, EXP, EXP_POSITION);
    if expression.None? || IsBlank(expression.value) {
      return Returned(NOT_AN_EXPRESSION);
    }
    var author := GetAttribute(AUTHOR, document, attributes, []);
    if author.None? {
      return Returned(NOT_AN_AUTHOR);
    }
    if Utf16Length(author.value) < MIN_AUTHOR_LENGTH {
      return Returned(NOT_A_VALID_AUTHOR);
    }
    var licenseType := GetAttribute(LICENSE_TYPE, document, attributes,
                                    [LICENSE_TYPE_COMMERCIAL_VALUE, LICENSE_TYPE_NON_COMMERCIAL_VALUE]);
    if licenseType.None? {
      return Returned(NOT_A_LICENSE);
    }
    ConfirmXParserLicence(author.value, licenseType.value, license);
    return Evaluate(eval(expression.value));
  }

  // ---------------------------------------------------------------------------------------
  // What process promises

  /** A missing or null author prints as "null": four characters, so the answer is "NaVA" and
      never "NaA". */
  lemma MissingAuthorIsNotValid(document: AttrMap, attributes: AttrMap, eval: string -> Double)
    requires var expression := NamedOrPositional(attributes, EXP, EXP_POSITION);
      expression.Some? && !IsBlank(expression.value)
    requires Attributes(document, attributes).GetAttribute(AUTHOR).None?
    ensures Result(document, attributes, eval) == Returned(NOT_A_VALID_AUTHOR)
    ensures Attestation(document, attributes) == []
  {
    assert !IsBlank("null") by { assert "null"[0] == 'n'; }
    assert Utf16Length("null") == 4;
  }

  /** A blank author still gives "NaA", so "NaA" answers exactly a blank author. */
  lemma NotAnAuthorOnlyWhenBlank(document: AttrMap, attributes: AttrMap, eval: string -> Double)
    requires var expression := NamedOrPositional(attributes, EXP, EXP_POSITION);
      expression.Some? && !IsBlank(expression.value)
    ensures var author := Attributes(document, attributes).GetAttribute(AUTHOR);
      (Result(document, attributes, eval) == Returned(NOT_AN_AUTHOR)) <==> (author.Some? && IsBlank(author.value))
  {
    assert !IsBlank("null") by { assert "null"[0] == 'n'; }
    if Admit(document, attributes).Admitted? {
      EvaluateIsNoCheckSentinel(eval(Admit(document, attributes).expression));
    }
  }

  /** Where an author is given, the two revisions answer the same and confirm the same
      licence: the current one reads the author and the licence type from the directive or the
      document just as this one does, and "null" is never an accepted licence type. */
  lemma AgreesWithCurrentRevision(document: AttrMap, attributes: AttrMap, eval: string -> Double)
    requires Attributes(document, attributes).GetAttribute(AUTHOR).Some?
    ensures Result(document, attributes, eval) == CalcExpression.Result(Attributes(document, attributes), eval)
    ensures Attestation(document, attributes) == CalcExpression.Attestation(Attributes(document, attributes))
  {
    var current := Attributes(document, attributes);
    assert GetExpression(current) == NamedOrPositional(attributes, EXP, EXP_POSITION);
    assert "null" != LICENSE_TYPE_COMMERCIAL_VALUE && "null" != LICENSE_TYPE_NON_COMMERCIAL_VALUE by {
      assert |"null"| != |LICENSE_TYPE_COMMERCIAL_VALUE| && |"null"| != |LICENSE_TYPE_NON_COMMERCIAL_VALUE|;
    }
    assert Admit(document, attributes) == CalcExpression.Admit(current);
  }
}
