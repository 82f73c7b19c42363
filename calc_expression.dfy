/** The expression calculator `calc_exp:[exp, author, calc_exp_license_type]` of the current
    revision. It evaluates an arithmetic expression with the mXParser library, which must first
    be licensed: the expression must be present, the author must be given (in the directive or
    in the document) with at least five characters, and the licence type must be "commercial"
    or "non_commercial". Once all three hold, the licence is confirmed for the author and the
    value is printed with two fraction digits, rounded toward +infinity. */
module CalcExpression {

  import opened Optional
  import opened Text
  import opened Decimals
  import opened DecimalText
  import opened Directive
  import opened MathLicense

  const EXP_POSITION := "1"
  const LICENSE_TYPE_COMMERCIAL_VALUE := "commercial"
  const LICENSE_TYPE_NON_COMMERCIAL_VALUE := "non_commercial"
  /** The shortest author `calculate` accepts, in UTF-16 code units (`author.length() < 5`). */
  const MIN_AUTHOR_LENGTH := 5

  // ---------------------------------------------------------------------------------------
  // The evaluator

  /** The exact value of a finite double, as `new BigDecimal(double)` gives it: a whole number
      of units of 10^-scale with 0 <= scale <= 1074. */
  type ExactDouble = d: Decimal | 0 <= d.scale <= 1074 witness Decimal(0, 0)

  /** What `Expression.calculate()` returns. */
  datatype Double = NaN | Infinite | Finite(exact: ExactDouble)

  /** `evaluate(expression)` given what the library computes for it: NaN is "NaE"; an infinite
      value makes `new BigDecimal(double)` throw; a finite one is printed at scale 2, rounded
      up. */
  function Evaluate(value: Double): (r: Outcome)
    ensures value.NaN? <==> r == Returned(NOT_AN_EXPRESSION)
    ensures value.Infinite? <==> r.Thrown?
  {
    match value
    case NaN => Returned(NOT_AN_EXPRESSION)
    case Infinite => Thrown
    case Finite(d) =>
      var rounded := SetScale2Ceiling(d).value;
      Returned(RenderHundredths(rounded.unscaled))
  }

  /** A finite value prints as the least multiple of 0.01 not below it, in a text that reads
      back as that multiple. */
  lemma FiniteRoundsUp(d: ExactDouble)
    ensures SetScale2Ceiling(d).Some?
    ensures var r := SetScale2Ceiling(d).value.unscaled;
      Evaluate(Finite(d)) == Returned(RenderHundredths(r))
      && IsCeilingHundredths(d, r) && ParseDecimal(RenderHundredths(r)) == Some(Decimal(r, 2))
  {
    SetScale2CeilingRoundsUp(d);
    RenderHundredthsRoundTrip(SetScale2Ceiling(d).value.unscaled);
  }

  // ---------------------------------------------------------------------------------------
  // The attributes

  /** `CalcExpressionMacro.Attributes`: the document's and the directive's attributes, each an
      own copy. */
  datatype Attributes = Attributes(documentAttributes: AttrMap, macroAttributes: AttrMap) {
    /** `getAttribute`: the directive's value whenever the directive has the key (even a null
        one), otherwise the document's. */
    function GetAttribute(key: string): (r: Option<string>)
      ensures key in macroAttributes ==> r == macroAttributes[key]
      ensures key !in macroAttributes ==> r == Get(documentAttributes, key)
    {
      GetOrDefault(macroAttributes, key, Get(documentAttributes, key))
    }
  }

  /** The `Attributes` constructor: a null map is an empty one. */
  function NewAttributes(documentAttributes: Option<AttrMap>, macroAttributes: Option<AttrMap>): (r: Attributes)
    ensures forall key ::
      r.GetAttribute(key)
        == (if macroAttributes.Some? && key in macroAttributes.value then macroAttributes.value[key]
            else DocumentAttribute(documentAttributes, key))
  {
    Attributes(documentAttributes.GetOr(map[]), macroAttributes.GetOr(map[]))
  }

  /** `document.getAttribute(key)` on a document that may be null. */
  function DocumentAttribute(document: Option<AttrMap>, key: string): Option<string> {
    if document.Some? then Get(document.value, key) else None
  }

  /** `getCalculationAttributes`: of the document, only a non-null author and a non-null
      licence type are copied; the directive's map is kept whole. */
  method GetCalculationAttributes(document: Option<AttrMap>, macroAttributes: Option<AttrMap>) returns (attributes: Attributes)
    ensures attributes.macroAttributes == macroAttributes.GetOr(map[])
    ensures forall key :: (key in attributes.documentAttributes
      <==> (key == AUTHOR || key == LICENSE_TYPE) && DocumentAttribute(document, key).Some?)
    ensures forall key :: (key == AUTHOR || key == LICENSE_TYPE ==>
      attributes.GetAttribute(key)
        == if key in attributes.macroAttributes then attributes.macroAttributes[key] else DocumentAttribute(document, key))
  {
    var documentAttributes: AttrMap := map[];
    var author := DocumentAttribute(document, AUTHOR);
    if author.Some? {
      documentAttributes := documentAttributes[AUTHOR := author];
    }
    var license := DocumentAttribute(document, LICENSE_TYPE);
    if license.Some? {
      documentAttributes := documentAttributes[LICENSE_TYPE := license];
    }
    attributes := NewAttributes(Some(documentAttributes), macroAttributes);
  }

  /** What the static `getAttribute(name, attributes, validValues...)` accepts: a value that is
      neither null nor blank and, when valid values are listed, equal to one of them. */
  function Accepted(raw: Option<string>, validValues: seq<string>): (r: Option<string>)
    ensures r.Some? <==> raw.Some? && !IsBlank(raw.value) && (validValues == [] || raw.value in validValues)
    ensures r.Some? ==> r.value == raw.value
  {
    if raw.None? || IsBlank(raw.value) then None
    else if validValues == [] || raw.value in validValues then raw
    else None
  }

  /** The static `getAttribute`: look the value up, refuse null and blank, then search the
      valid values, returning at the first equal one. */
  method GetAttribute(attrName: string, attributes: Attributes, validValues: seq<string>) returns (r: Option<string>)
    ensures r == Accepted(attributes.GetAttribute(attrName), validValues)
  {
    var rawAttr := attributes.GetAttribute(attrName);
    if rawAttr.None? {
      return None;
    }
    var attr := rawAttr.value;
    if IsBlank(attr) {
      return None;
    }
    var skipValidValuesEvaluation := |validValues| == 0;
    for i := 0 to |validValues|
      invariant attr !in validValues[..i]
    {
      if attr == validValues[i] {
        return Some(attr);
      }
    }
    assert validValues[..|validValues|] == validValues;
    return if skipValidValuesEvaluation then Some(attr) else None;
  }

  /** `getExpression`: from the directive only, by name or first position. */
  function GetExpression(attributes: Attributes): (r: Option<string>)
    ensures var m := attributes.macroAttributes;
      && (EXP in m ==> r == m[EXP])
      && (EXP !in m && EXP_POSITION in m ==> r == m[EXP_POSITION])
      && (EXP !in m && EXP_POSITION !in m ==> r.None?)
  {
    NamedOrPositional(attributes.macroAttributes, EXP, EXP_POSITION)
  }

  // ---------------------------------------------------------------------------------------
  // calculate

  /** How far `calculate` gets: refused with a sentinel, or admitted with an expression, an
      author and the use the licence type names. */
  datatype Admission = Refused(sentinel: string) | Admitted(expression: string, author: string, use: Use)

  /** The use a licence type names. */
  function UseOf(licenseType: string): Use {
    if licenseType == LICENSE_TYPE_NON_COMMERCIAL_VALUE then NonCommercial else Commercial
  }

  /** The three checks of `calculate`, in order: expression, author, licence type. */
  function Admit(attributes: Attributes): (a: Admission)
    ensures a.Refused? ==> a.sentinel in {NOT_AN_EXPRESSION, NOT_AN_AUTHOR, NOT_A_VALID_AUTHOR, NOT_A_LICENSE}
    ensures a == Refused(NOT_AN_EXPRESSION)
      <==> GetExpression(attributes).None? || IsBlank(GetExpression(attributes).value)
    ensures a.Admitted? ==>
      && GetExpression(attributes) == Some(a.expression) && !IsBlank(a.expression)
      && attributes.GetAttribute(AUTHOR) == Some(a.author) && !IsBlank(a.author)
      && Utf16Length(a.author) >= MIN_AUTHOR_LENGTH
      && (attributes.GetAttribute(LICENSE_TYPE) == Some(LICENSE_TYPE_NON_COMMERCIAL_VALUE) <==> a.use == NonCommercial)
      && (attributes.GetAttribute(LICENSE_TYPE) == Some(LICENSE_TYPE_COMMERCIAL_VALUE) <==> a.use == Commercial)
  {
    var expression := GetExpression(attributes);
    if expression.None? || IsBlank(expression.value) then Refused(NOT_AN_EXPRESSION)
    else
      var author := Accepted(attributes.GetAttribute(AUTHOR), []);
      if author.None? then Refused(NOT_AN_AUTHOR)
      else if Utf16Length(author.value) < MIN_AUTHOR_LENGTH then Refused(NOT_A_VALID_AUTHOR)
      else
        var licenseType := Accepted(attributes.GetAttribute(LICENSE_TYPE),
                                    [LICENSE_TYPE_COMMERCIAL_VALUE, LICENSE_TYPE_NON_COMMERCIAL_VALUE]);
        if licenseType.None? then Refused(NOT_A_LICENSE)
        else Admitted(expression.value, author.value, UseOf(licenseType.value))
  }

  /** What `calculate` returns, given what the library computes for each expression. */
  function Result(attributes: Attributes, eval: string -> Double): (r: Outcome)
    ensures r.Thrown? ==> Admit(attributes).Admitted?
    ensures r.Returned? && r.text in {NOT_AN_AUTHOR, NOT_A_VALID_AUTHOR, NOT_A_LICENSE}
      <==> Admit(attributes).Refused? && Admit(attributes).sentinel != NOT_AN_EXPRESSION
  {
    match Admit(attributes)
    case Refused(sentinel) => Returned(sentinel)
    case Admitted(expression, _, _) =>
      EvaluateIsNoCheckSentinel(eval(expression));
      Evaluate(eval(expression))
  }

  /** The confirmations `calculate` makes: one, for the author and the use, once admitted. */
  function Attestation(attributes: Attributes): seq<Confirmation> {
    match Admit(attributes)
    case Refused(_) => []
    case Admitted(_, author, use) => [Confirmation(use, author)]
  }

  /** `confirmXParserLicence`. */
  method ConfirmXParserLicence(author: string, licenseType: string, license: License)
    modifies license
    ensures licenseType == LICENSE_TYPE_NON_COMMERCIAL_VALUE ==>
      license.confirmations == old(license.confirmations) + [Confirmation(NonCommercial, author)]
    ensures licenseType == LICENSE_TYPE_COMMERCIAL_VALUE ==>
      license.confirmations == old(license.confirmations) + [Confirmation(Commercial, author)]
    ensures licenseType != LICENSE_TYPE_NON_COMMERCIAL_VALUE && licenseType != LICENSE_TYPE_COMMERCIAL_VALUE ==>
      license.confirmations == old(license.confirmations)
  {
    if licenseType == LICENSE_TYPE_NON_COMMERCIAL_VALUE {
      license.ConfirmNonCommercialUse(author);
    } else if licenseType == LICENSE_TYPE_COMMERCIAL_VALUE {
      license.ConfirmCommercialUse(author);
    }
  }

  /** `calculate(ignored, attributes)`, with the library's licence as `license`. */
  method Calculate(ignored: string, attributes: Attributes, eval: string -> Double, license: License) returns (r: Outcome)
    modifies license
    ensures r == Result(attributes, eval)
    ensures license.confirmations == old(license.confirmations) + Attestation(attributes)
  {
    var expression := GetExpression(attributes);
    if expression.None? || IsBlank(expression.value) {
      return Returned(NOT_AN_EXPRESSION);
    }
    var author := GetAttribute(AUTHOR, attributes, []);
    if author.None? {
      return Returned(NOT_AN_AUTHOR);
    }
    if Utf16Length(author.value) < MIN_AUTHOR_LENGTH {
      return Returned(NOT_A_VALID_AUTHOR);
    }
    var licenseType := GetAttribute(LICENSE_TYPE, attributes, [LICENSE_TYPE_COMMERCIAL_VALUE, LICENSE_TYPE_NON_COMMERCIAL_VALUE]);
    if licenseType.None? {
      return Returned(NOT_A_LICENSE);
    }
    ConfirmXParserLicence(author.value, licenseType.value, license);
    return Evaluate(eval(expression.value));
  }

  // ---------------------------------------------------------------------------------------
  // What calculate promises

  /** A printed number is never one of the sentinels of the checks. */
  lemma EvaluateIsNoCheckSentinel(value: Double)
    ensures Evaluate(value) != Returned(NOT_AN_AUTHOR)
    ensures Evaluate(value) != Returned(NOT_A_VALID_AUTHOR)
    ensures Evaluate(value) != Returned(NOT_A_LICENSE)
  {
    if value.Finite? {
      var s := Evaluate(value).text;
      assert |s| >= 4 && s[|s| - 3] == '.';
      assert NOT_A_VALID_AUTHOR[1] != '.';
    }
  }

  /** The expression is checked first: a missing or blank one gives "NaE" and confirms
      nothing, whatever the author and licence. */
  lemma ExpressionFirst(attributes: Attributes, eval: string -> Double)
    requires GetExpression(attributes).None? || IsBlank(GetExpression(attributes).value)
    ensures Result(attributes, eval) == Returned(NOT_AN_EXPRESSION)
    ensures Attestation(attributes) == []
  {
  }

  /** With an expression, "NaA" answers exactly a null or blank author and "NaVA" exactly an
      author shorter than five UTF-16 code units. */
  lemma AuthorChecks(attributes: Attributes, eval: string -> Double)
    requires GetExpression(attributes).Some? && !IsBlank(GetExpression(attributes).value)
    ensures var author := attributes.GetAttribute(AUTHOR);
      Result(attributes, eval) == Returned(NOT_AN_AUTHOR) <==> (author.None? || IsBlank(author.value))
    ensures var author := attributes.GetAttribute(AUTHOR);
      (Result(attributes, eval) == Returned(NOT_A_VALID_AUTHOR))
        <==> (author.Some? && !IsBlank(author.value) && Utf16Length(author.value) < MIN_AUTHOR_LENGTH)
  {
    if Admit(attributes).Admitted? {
      EvaluateIsNoCheckSentinel(eval(Admit(attributes).expression));
    }
  }

  /** With an expression and a valid author, "NaL" answers exactly a licence type that is not
      literally "commercial" or "non_commercial". */
  lemma LicenseMustMatch(attributes: Attributes, eval: string -> Double)
    requires GetExpression(attributes).Some? && !IsBlank(GetExpression(attributes).value)
    requires var author := attributes.GetAttribute(AUTHOR);
      author.Some? && !IsBlank(author.value) && Utf16Length(author.value) >= MIN_AUTHOR_LENGTH
    ensures var licenseType := attributes.GetAttribute(LICENSE_TYPE);
      (Result(attributes, eval) == Returned(NOT_A_LICENSE))
        <==> (licenseType != Some(LICENSE_TYPE_COMMERCIAL_VALUE) && licenseType != Some(LICENSE_TYPE_NON_COMMERCIAL_VALUE))
  {
    assert LICENSE_TYPE_COMMERCIAL_VALUE[0] == 'c' && !IsWhitespace('c');
    assert LICENSE_TYPE_NON_COMMERCIAL_VALUE[0] == 'n' && !IsWhitespace('n');
    if Admit(attributes).Admitted? {
      EvaluateIsNoCheckSentinel(eval(Admit(attributes).expression));
    }
  }

  /** The licence is confirmed exactly when all three checks pass, once, for the author given
      and for the use the licence type names; only then is the expression evaluated. */
  lemma ConfirmedOnlyWhenAdmitted(attributes: Attributes, eval: string -> Double)
    ensures var expression := GetExpression(attributes);
      var author := attributes.GetAttribute(AUTHOR);
      var licenseType := attributes.GetAttribute(LICENSE_TYPE);
      (Attestation(attributes) != [])
        <==> (&& expression.Some? && !IsBlank(expression.value)
              && author.Some? && !IsBlank(author.value) && Utf16Length(author.value) >= MIN_AUTHOR_LENGTH
              && (licenseType == Some(LICENSE_TYPE_COMMERCIAL_VALUE) || licenseType == Some(LICENSE_TYPE_NON_COMMERCIAL_VALUE)))
    ensures Attestation(attributes) != [] ==>
      && Attestation(attributes) == [Confirmation(
           if attributes.GetAttribute(LICENSE_TYPE) == Some(LICENSE_TYPE_COMMERCIAL_VALUE) then Commercial else NonCommercial,
           attributes.GetAttribute(AUTHOR).value)]
      && Result(attributes, eval) == Evaluate(eval(GetExpression(attributes).value))
    ensures Attestation(attributes) == [] ==>
      (Result(attributes, eval) in
        {Returned(NOT_AN_EXPRESSION), Returned(NOT_AN_AUTHOR), Returned(NOT_A_VALID_AUTHOR), Returned(NOT_A_LICENSE)})
  {
    assert LICENSE_TYPE_COMMERCIAL_VALUE[0] == 'c' && !IsWhitespace('c');
    assert LICENSE_TYPE_NON_COMMERCIAL_VALUE[0] == 'n' && !IsWhitespace('n');
    assert LICENSE_TYPE_COMMERCIAL_VALUE != LICENSE_TYPE_NON_COMMERCIAL_VALUE by {
      assert |LICENSE_TYPE_COMMERCIAL_VALUE| != |LICENSE_TYPE_NON_COMMERCIAL_VALUE|;
    }
  }

  /** Once admitted, NaN prints "NaE", an infinite value throws, and a finite value prints as
      the least multiple of 0.01 not below it. */
  lemma AdmittedEvaluates(attributes: Attributes, eval: string -> Double)
    requires Admit(attributes).Admitted?
    ensures var value := eval(Admit(attributes).expression);
      && (value.NaN? ==> Result(attributes, eval) == Returned(NOT_AN_EXPRESSION))
      && (value.Infinite? ==> Result(attributes, eval) == Thrown)
      && (value.Finite? ==> exists r :: Result(attributes, eval) == Returned(RenderHundredths(r))
                                        && IsCeilingHundredths(value.exact, r))
  {
    var value := eval(Admit(attributes).expression);
    if value.Finite? {
      FiniteRoundsUp(value.exact);
      var r := SetScale2Ceiling(value.exact).value.unscaled;
      assert Result(attributes, eval) == Returned(RenderHundredths(r));
    }
  }

  // ---------------------------------------------------------------------------------------
  // Examples

  /** A directive naming an expression, an author and a licence type. */
  function DirectiveOf(expression: string, author: Option<string>, licenseType: string): AttrMap {
    map[EXP := Some(expression), AUTHOR := author, LICENSE_TYPE := Some(licenseType)]
  }

  /** "John" has four characters: not a valid author. */
  lemma ShortAuthorIsNotValid(eval: string -> Double)
    ensures Result(Attributes(map[], DirectiveOf("3 * 4", Some("John"), "commercial")), eval)
      == Returned(NOT_A_VALID_AUTHOR)
  {
    assert !IsBlank("3 * 4") by { assert "3 * 4"[0] == '3'; }
    assert !IsBlank("John") by { assert "John"[0] == 'J'; }
    assert Utf16Length("John") == 4;
    assert |EXP| != |AUTHOR| && |EXP| != |LICENSE_TYPE| && |AUTHOR| != |LICENSE_TYPE|;
    var attributes := Attributes(map[], DirectiveOf("3 * 4", Some("John"), "commercial"));
    assert GetExpression(attributes) == Some("3 * 4");
    assert attributes.GetAttribute(AUTHOR) == Some("John");
    AuthorChecks(attributes, eval);
  }

  /** A directive that sets the author to null hides the document's author: "NaA". */
  lemma NullAuthorHidesDocumentAuthor(eval: string -> Double)
    ensures Result(Attributes(map[AUTHOR := Some("Johny")], DirectiveOf("3 * 4", None, "commercial")), eval)
      == Returned(NOT_AN_AUTHOR)
  {
    assert !IsBlank("3 * 4") by { assert "3 * 4"[0] == '3'; }
    assert |EXP| != |AUTHOR| && |EXP| != |LICENSE_TYPE| && |AUTHOR| != |LICENSE_TYPE|;
    var attributes := Attributes(map[AUTHOR := Some("Johny")], DirectiveOf("3 * 4", None, "commercial"));
    assert GetExpression(attributes) == Some("3 * 4");
    assert attributes.GetAttribute(AUTHOR) == None;
    AuthorChecks(attributes, eval);
  }

  /** No author in the directive nor in the document: "NaA". */
  lemma MissingAuthorIsNotAnAuthor(eval: string -> Double)
    ensures Result(Attributes(map[], map[EXP := Some("3 * 4")]), eval) == Returned(NOT_AN_AUTHOR)
  {
    assert !IsBlank("3 * 4") by { assert "3 * 4"[0] == '3'; }
    assert |EXP| != |AUTHOR|;
    var attributes := Attributes(map[], map[EXP := Some("3 * 4")]);
    assert GetExpression(attributes) == Some("3 * 4");
    assert attributes.GetAttribute(AUTHOR) == None;
    AuthorChecks(attributes, eval);
  }

  /** A blank author is no author: "NaA". */
  lemma BlankAuthorIsNotAnAuthor(eval: string -> Double)
    ensures Result(Attributes(map[AUTHOR := Some("  ")], map[EXP := Some("3 * 4")]), eval) == Returned(NOT_AN_AUTHOR)
  {
    assert !IsBlank("3 * 4") by { assert "3 * 4"[0] == '3'; }
    assert IsBlank("  ");
    assert |EXP| != |AUTHOR|;
    var attributes := Attributes(map[AUTHOR := Some("  ")], map[EXP := Some("3 * 4")]);
    assert GetExpression(attributes) == Some("3 * 4");
    assert attributes.GetAttribute(AUTHOR) == Some("  ");
    AuthorChecks(attributes, eval);
  }

  /** A valid author but no licence type: "NaL". */
  lemma MissingLicenseIsNotALicense(eval: string -> Double)
    ensures Result(Attributes(map[AUTHOR := Some("Johny")], map[EXP := Some("3 * 4")]), eval) == Returned(NOT_A_LICENSE)
  {
    assert !IsBlank("3 * 4") by { assert "3 * 4"[0] == '3'; }
    assert !IsBlank("Johny") by { assert "Johny"[0] == 'J'; }
    assert Utf16Length("Johny") == 5;
    assert |EXP| != |AUTHOR| && |EXP| != |LICENSE_TYPE| && |AUTHOR| != |LICENSE_TYPE|;
    var attributes := Attributes(map[AUTHOR := Some("Johny")], map[EXP := Some("3 * 4")]);
    assert GetExpression(attributes) == Some("3 * 4");
    assert attributes.GetAttribute(AUTHOR) == Some("Johny");
    assert attributes.GetAttribute(LICENSE_TYPE) == None;
    LicenseMustMatch(attributes, eval);
  }

  /** Twelve prints as "12.00". */
  lemma TwelvePrints()
    ensures Evaluate(Finite(Decimal(12, 0))) == Returned("12.00")
  {
    assert RenderHundredths(1200) == "12.00" by {
      assert ZeroPad(0, 2) == "00";
      assert NatToString(12) == "12";
    }
    assert SetScale2Ceiling(Decimal(12, 0)) == Some(Decimal(1200, 2));
  }

  /** Attributes that pass the checks under a commercial licence. */
  lemma CommercialUse(attributes: Attributes, eval: string -> Double, expression: string, author: string)
    requires GetExpression(attributes) == Some(expression) && !IsBlank(expression)
    requires attributes.GetAttribute(AUTHOR) == Some(author) && !IsBlank(author)
    requires Utf16Length(author) >= MIN_AUTHOR_LENGTH
    requires attributes.GetAttribute(LICENSE_TYPE) == Some(LICENSE_TYPE_COMMERCIAL_VALUE)
    ensures Result(attributes, eval) == Evaluate(eval(expression))
    ensures Attestation(attributes) == [Confirmation(Commercial, author)]
  {
    ConfirmedOnlyWhenAdmitted(attributes, eval);
  }

  /** The lookups of the directive below: the expression from the directive, the author and
      the licence type from the document. */
  lemma DocumentLookups(attributes: Attributes)
    requires attributes == Attributes(map[AUTHOR := Some("Johny"), LICENSE_TYPE := Some("commercial")],
                                      map[EXP_POSITION := Some("3 * 4")])
    ensures GetExpression(attributes) == Some("3 * 4")
    ensures attributes.GetAttribute(AUTHOR) == Some("Johny")
    ensures attributes.GetAttribute(LICENSE_TYPE) == Some(LICENSE_TYPE_COMMERCIAL_VALUE)
  {
    assert |EXP| != |EXP_POSITION| && |AUTHOR| != |LICENSE_TYPE| && |AUTHOR| != |EXP_POSITION| && |LICENSE_TYPE| != |EXP_POSITION|;
  }

  /** The author and the licence type may come from the document; "3 * 4" evaluating to 12
      prints "12.00" and confirms commercial use for the author. */
  lemma DocumentLicensesExpression(eval: string -> Double)
    requires eval("3 * 4") == Finite(Decimal(12, 0))
    ensures var attributes := Attributes(map[AUTHOR := Some("Johny"), LICENSE_TYPE := Some("commercial")],
                                         map[EXP_POSITION := Some("3 * 4")]);
      && Result(attributes, eval) == Returned("12.00")
      && Attestation(attributes) == [Confirmation(Commercial, "Johny")]
  {
    assert !IsBlank("3 * 4") by { assert "3 * 4"[0] == '3'; }
    assert !IsBlank("Johny") by { assert "Johny"[0] == 'J'; }
    assert Utf16Length("Johny") == 5;
    TwelvePrints();
    var attributes := Attributes(map[AUTHOR := Some("Johny"), LICENSE_TYPE := Some("commercial")],
                                 map[EXP_POSITION := Some("3 * 4")]);
    DocumentLookups(attributes);
    CommercialUse(attributes, eval, "3 * 4", "Johny");
  }
}
