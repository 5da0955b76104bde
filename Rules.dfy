/**
  The validation rules of the ValidatableEntry project.  Each rule is a
  configuration value plus an error message; `Validate` is a total, pure
  function of the configuration and the text, as the `IValidationRule`
  interface (one `Validate(text)` and one `ErrorMessage`) describes.
  `RegexRule` is not part of this model.
*/
module Rules {
  import opened DotNet

  datatype ValidationRule =
    | AlwaysPassRule(errorMessage: string)
    | MinLengthRule(errorMessage: string, minLength: Int32)
    | MaxLengthRule(errorMessage: string, maxLength: Int32)
    | IsIntRule(errorMessage: string, minValue: Int32, maxValue: Int32)
  {
    /** Does the rule accept the text? */
    predicate Validate(text: string)
    {
      match this
      case AlwaysPassRule(_) => true
      case MinLengthRule(_, minLength) =>
        if IsNullOrWhiteSpace(text) then false else Utf16Length(text) > minLength
      case MaxLengthRule(_, maxLength) =>
        if IsNullOrWhiteSpace(text) then true else Utf16Length(text) < maxLength
      case IsIntRule(_, minValue, maxValue) =>
        match TryParseInt32(text)
        case None => false
        case Some(value) =>
          if value < minValue then false
          else if value > maxValue then false
          else true
    }
  }

  /** `new IsIntRule { ErrorMessage = m }`: the bounds keep their initial values. */
  function NewIsIntRule(errorMessage: string): ValidationRule
  {
    IsIntRule(errorMessage, MinInt32, MaxInt32)
  }

  // ---------------------------------------------------------------------------
  // MinLengthRule
  // ---------------------------------------------------------------------------

  lemma MinLengthRejectsBlank(m: string, minLength: Int32, text: string)
    requires IsNullOrWhiteSpace(text)
    ensures !MinLengthRule(m, minLength).Validate(text)
  {
  }

  /** On non-blank text the length comparison is strict. */
  lemma MinLengthIsStrict(m: string, minLength: Int32, text: string)
    requires !IsNullOrWhiteSpace(text)
    ensures MinLengthRule(m, minLength).Validate(text) <==> Utf16Length(text) > minLength
    ensures Utf16Length(text) == minLength ==> !MinLengthRule(m, minLength).Validate(text)
  {
  }

  lemma MinLengthNonPositiveAcceptsNonBlank(m: string, minLength: Int32, text: string)
    requires minLength <= 0 && !IsNullOrWhiteSpace(text)
    ensures MinLengthRule(m, minLength).Validate(text)
  {
  }

  /** Accepted texts are closed under lengthening (among non-blank texts). */
  lemma MinLengthUpwardClosed(m: string, minLength: Int32, s: string, t: string)
    requires MinLengthRule(m, minLength).Validate(s)
    requires !IsNullOrWhiteSpace(t) && Utf16Length(t) >= Utf16Length(s)
    ensures MinLengthRule(m, minLength).Validate(t)
  {
  }

  // ---------------------------------------------------------------------------
  // MaxLengthRule
  // ---------------------------------------------------------------------------

  /** Blank text passes whatever its length, so a long run of spaces passes too. */
  lemma MaxLengthAcceptsBlank(m: string, maxLength: Int32, text: string)
    requires IsNullOrWhiteSpace(text)
    ensures MaxLengthRule(m, maxLength).Validate(text)
  {
  }

  /** On non-blank text the length comparison is strict. */
  lemma MaxLengthIsStrict(m: string, maxLength: Int32, text: string)
    requires !IsNullOrWhiteSpace(text)
    ensures MaxLengthRule(m, maxLength).Validate(text) <==> Utf16Length(text) < maxLength
    ensures Utf16Length(text) == maxLength ==> !MaxLengthRule(m, maxLength).Validate(text)
  {
  }

  lemma MaxLengthAtMostOneRejectsNonBlank(m: string, maxLength: Int32, text: string)
    requires maxLength <= 1 && !IsNullOrWhiteSpace(text)
    ensures !MaxLengthRule(m, maxLength).Validate(text)
  {
  }

  /** Accepted texts are closed under shortening (among non-blank texts). */
  lemma MaxLengthDownwardClosed(m: string, maxLength: Int32, s: string, t: string)
    requires !IsNullOrWhiteSpace(s) && MaxLengthRule(m, maxLength).Validate(s)
    requires !IsNullOrWhiteSpace(t) && Utf16Length(t) <= Utf16Length(s)
    ensures MaxLengthRule(m, maxLength).Validate(t)
  {
  }

  // ---------------------------------------------------------------------------
  // IsIntRule
  // ---------------------------------------------------------------------------

  /** The rule passes exactly the numerals whose value lies in the closed
      range; a text that is not an int32 numeral fails. */
  lemma IsIntAcceptsExactlyRange(m: string, minValue: Int32, maxValue: Int32, text: string)
    ensures IsIntRule(m, minValue, maxValue).Validate(text) <==>
      TryParseInt32(text).Some? && minValue <= TryParseInt32(text).value <= maxValue
  {
  }

  /** Out-of-range numerals fail to parse and so fail the rule, whatever the bounds. */
  lemma IsIntRejectsOverflow(m: string, minValue: Int32, maxValue: Int32, n: nat)
    requires n > MaxInt32
    ensures !IsIntRule(m, minValue, maxValue).Validate(NatToString(n))
  {
    OverflowDoesNotParse(n);
  }

  lemma IsIntRejectsNegativeOverflow(m: string, minValue: Int32, maxValue: Int32, n: nat)
    requires n > -MinInt32
    ensures !IsIntRule(m, minValue, maxValue).Validate("-" + NatToString(n))
  {
    NegativeOverflowDoesNotParse(n);
  }

  /** The bounds are inclusive: every value between them, both ends included,
      passes when written as `ToString` writes it. */
  lemma IsIntAcceptsInRange(m: string, minValue: Int32, maxValue: Int32, n: Int32)
    requires minValue <= n <= maxValue
    ensures IsIntRule(m, minValue, maxValue).Validate(Int32ToString(n))
  {
    ParseRoundTrip(n);
  }

  /** Values just outside the bounds fail. */
  lemma IsIntRejectsOutside(m: string, minValue: Int32, maxValue: Int32, n: Int32)
    requires n < minValue || n > maxValue
    ensures !IsIntRule(m, minValue, maxValue).Validate(Int32ToString(n))
  {
    ParseRoundTrip(n);
  }

  /** With the initial bounds a text passes exactly when it is an int32 numeral. */
  lemma NewIsIntAcceptsEveryNumeral(m: string, text: string)
    ensures NewIsIntRule(m).Validate(text) <==> TryParseInt32(text).Some?
  {
  }

  lemma IsIntEmptyRangeRejectsAll(m: string, minValue: Int32, maxValue: Int32, text: string)
    requires minValue > maxValue
    ensures !IsIntRule(m, minValue, maxValue).Validate(text)
  {
  }

  // ---------------------------------------------------------------------------
  // AlwaysPassRule
  // ---------------------------------------------------------------------------

  /** Every text passes, blank or not, and the message plays no part. */
  lemma AlwaysPassAcceptsAll(m: string, m': string, text: string)
    ensures AlwaysPassRule(m).Validate(text)
    ensures AlwaysPassRule(m).Validate(text) == AlwaysPassRule(m').Validate(text)
  {
  }

  /** A character outside the Basic Multilingual Plane is two code units long:
      U+1F600 passes MinLength 1 and fails MaxLength 2. */
  lemma SurrogatePairExamples()
    ensures MinLengthRule("m", 1).Validate("\U{1F600}")
    ensures !MaxLengthRule("m", 2).Validate("\U{1F600}")
  {
    assert "\U{1F600}"[0] as int > 0xFFFF;
    assert Utf16Length("\U{1F600}") == 2;
  }

  /** Concrete cases for the length and range rules. */
  lemma RuleExamples()
    ensures !MinLengthRule("m", 2).Validate("ab") && MinLengthRule("m", 2).Validate("abc")
    ensures !MinLengthRule("m", 0).Validate("") && !MinLengthRule("m", 0).Validate("  ")
    ensures MaxLengthRule("m", 3).Validate("") && MaxLengthRule("m", 3).Validate("ab")
    ensures !MaxLengthRule("m", 3).Validate("abc")
    ensures IsIntRule("m", 0, 10).Validate("5") && IsIntRule("m", 0, 10).Validate("0")
    ensures IsIntRule("m", 0, 10).Validate("10")
    ensures !IsIntRule("m", 0, 10).Validate("15") && !IsIntRule("m", 0, 10).Validate("x")
  {
    assert "ab"[0] == 'a';
    assert "abc"[0] == 'a';
    IsIntAcceptsInRange("m", 0, 10, 5);
    IsIntAcceptsInRange("m", 0, 10, 0);
    IsIntAcceptsInRange("m", 0, 10, 10);
    IsIntRejectsOutside("m", 0, 10, 15);
    assert Int32ToString(5) == "5";
    assert Int32ToString(0) == "0";
    assert Int32ToString(10) == "10";
    assert Int32ToString(15) == "15";
    NoDigitNoNumber("x");
  }
}
