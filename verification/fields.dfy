/** The string field of the form framework, as every text input of the forms
    goes through it before the form's own `validate_<field>` method: the value is
    trimmed and a blank one refused; then the field's validators run on the
    trimmed value and all their errors are collected; only a value they all
    accept reaches the form's method. */
module FormFields {
  import opened Results
  import opened Text

  datatype FieldError =
    | Blank                      // empty after trimming
    | NotUnique                  // the model column is unique and the value is stored
    | TooLong(max: nat)
    | TooShort(min: nat)
    | NullCharacter              // the value holds U+0000
    | Rejected(message: string)  // the form's own method refused it

  /** The field's validators, in the order the field lists them: the unique
      check the model column brings (when `stored` is given), the maximum and
      minimum length, and the null-character check. Every failing one reports. */
  function FieldChecks(v: string, minLength: nat, maxLength: Option<nat>, stored: Option<set<string>>): (errs: seq<FieldError>)
    ensures NotUnique in errs <==> stored.Some? && v in stored.value
    ensures maxLength.Some? ==> (TooLong(maxLength.value) in errs <==> |v| > maxLength.value)
    ensures TooShort(minLength) in errs <==> |v| < minLength
    ensures NullCharacter in errs <==> '\0' in v
    ensures forall e :: e in errs ==> !e.Blank? && !e.Rejected?
    ensures errs == [] <==>
      && (stored.None? || v !in stored.value)
      && (maxLength.None? || |v| <= maxLength.value)
      && |v| >= minLength
      && '\0' !in v
  {
    (if stored.Some? && v in stored.value then [NotUnique] else [])
    + (if maxLength.Some? && |v| > maxLength.value then [TooLong(maxLength.value)] else [])
    + (if |v| < minLength then [TooShort(minLength)] else [])
    + (if '\0' in v then [NullCharacter] else [])
  }

  /** The whole field: trim, blank check, validators, then the form's method on
      the trimmed value. */
  function CharField(raw: string, minLength: nat, maxLength: Option<nat>, stored: Option<set<string>>,
                     validate: string -> Result<string, string>): (r: Result<string, seq<FieldError>>)
    ensures AllSpace(raw) ==> r == Err([Blank])
    ensures !AllSpace(raw) && FieldChecks(Strip(raw), minLength, maxLength, stored) != [] ==>
      r == Err(FieldChecks(Strip(raw), minLength, maxLength, stored))
    ensures r.Ok? ==> FieldChecks(Strip(raw), minLength, maxLength, stored) == [] && validate(Strip(raw)) == Ok(r.value)
    ensures !AllSpace(raw) && FieldChecks(Strip(raw), minLength, maxLength, stored) == [] ==>
      r == (match validate(Strip(raw)) case Ok(v) => Ok(v) case Err(m) => Err([Rejected(m)]))
    ensures r.Err? ==> |r.error| > 0
  {
    var v := Strip(raw);
    StripEmptyIff(raw);
    if v == [] then Err([Blank])
    else
      var errs := FieldChecks(v, minLength, maxLength, stored);
      if errs != [] then Err(errs)
      else
        match validate(v)
        case Ok(w) => Ok(w)
        case Err(m) => Err([Rejected(m)])
  }
}
