/**
 * The local state of the appeal form on the home page: the five field values, the
 * error map the validator rebuilds, the translated text table, the locale the
 * phone field is formatted for, and the two flags that gate every edit.
 */
module Home {
  import opened Wrappers
  import opened Text
  import opened Email
  import opened Masking
  import Translation

  /** The five inputs of the form. */
  datatype Field = PageName | Mail | Phone | Birthday | Appeal

  /** The fields the validator checks, in its order. */
  const RequiredFields: seq<Field> := [PageName, Mail, Phone, Birthday, Appeal]

  /** A value of the error map: `true` (empty field), `'invalid'` (bad address), or the `false` an edit leaves. */
  datatype FieldError = Required | InvalidFormat | Cleared

  /** Whether an error entry is truthy, so that the field is shown in error. */
  predicate Raised(e: FieldError) {
    e != Cleared
  }

  /** `new AsYouType(country).input(digits)`: the phone number formatter, a parameter of the model. */
  type PhoneFormatter = (string, string) -> string

  /** Every field has a value. */
  predicate Complete(data: map<Field, string>) {
    forall f: Field :: f in data
  }

  /** The validator visits every field. */
  lemma AllFieldsRequired()
    ensures forall f: Field :: f in RequiredFields
  {
    forall f: Field ensures f in RequiredFields {
      match f
      case PageName => assert RequiredFields[0] == f;
      case Mail => assert RequiredFields[1] == f;
      case Phone => assert RequiredFields[2] == f;
      case Birthday => assert RequiredFields[3] == f;
      case Appeal => assert RequiredFields[4] == f;
    }
  }

  /**
   * The error map the validator must produce: an empty (all-whitespace) field is
   * `Required`; a non-empty address the e-mail check rejects is `InvalidFormat`;
   * nothing else has an entry.
   */
  ghost function FormErrors(data: map<Field, string>): (r: map<Field, FieldError>)
    requires Complete(data)
    ensures forall f :: f in r ==> r[f] != Cleared
    ensures forall f :: f in r && r[f] == InvalidFormat ==> f == Mail
  {
    map f | f in RequiredFields && (IsBlank(data[f]) || (f == Mail && !ValidateEmail(data[f]))) ::
      if IsBlank(data[f]) then Required else InvalidFormat
  }

  /** Flagging the fields whose trimmed value is empty, then a non-empty rejected address, gives the map `FormErrors` describes. */
  lemma FormErrorsOf(data: map<Field, string>, flagged: map<Field, FieldError>)
    requires Complete(data)
    requires forall f: Field :: f in flagged <==> Trim(data[f]) == []
    requires forall f :: f in flagged ==> flagged[f] == Required
    ensures (if Trim(data[Mail]) != [] && !ValidateEmail(data[Mail]) then flagged[Mail := InvalidFormat] else flagged)
            == FormErrors(data)
  {
    forall f: Field ensures Trim(data[f]) == [] <==> IsBlank(data[f]) {
      TrimEmptyIffBlank(data[f]);
    }
    FormErrorsOfBlank(data, flagged);
  }

  lemma FormErrorsOfBlank(data: map<Field, string>, flagged: map<Field, FieldError>)
    requires Complete(data)
    requires forall f: Field :: f in flagged <==> IsBlank(data[f])
    requires forall f :: f in flagged ==> flagged[f] == Required
    ensures (if !IsBlank(data[Mail]) && !ValidateEmail(data[Mail]) then flagged[Mail := InvalidFormat] else flagged)
            == FormErrors(data)
  {
    AllFieldsRequired();
  }

  /** The form passes validation exactly when every field has a non-blank value and the address is well formed. */
  lemma FormErrorsEmptyIff(data: map<Field, string>)
    requires Complete(data)
    ensures FormErrors(data) == map[] <==> (forall f: Field :: !IsBlank(data[f])) && ValidateEmail(data[Mail])
  {
    AllFieldsRequired();
    var errs := FormErrors(data);
    if errs == map[] {
      forall f: Field ensures !IsBlank(data[f]) {
        assert f !in errs;
      }
      assert Mail !in errs;
    }
  }

  /** A well-formed address never puts the mail field in error. */
  lemma ValidMailNeverFlagged(data: map<Field, string>)
    requires Complete(data)
    requires ValidateEmail(data[Mail])
    ensures Mail !in FormErrors(data)
  {
    ValidEmailShape(data[Mail]);
    assert !IsJsSpace(data[Mail][0]);
  }

  /** `InvalidFormat` is only ever given to the mail field, and exactly when its value is non-blank and rejected. */
  lemma FormErrorsKinds(data: map<Field, string>)
    requires Complete(data)
    ensures forall f :: f in FormErrors(data) && FormErrors(data)[f] == InvalidFormat ==> f == Mail
    ensures (Mail in FormErrors(data) && FormErrors(data)[Mail] == InvalidFormat)
            <==> !IsBlank(data[Mail]) && !ValidateEmail(data[Mail])
    ensures forall f: Field :: (f in FormErrors(data) && FormErrors(data)[f] == Required) <==> IsBlank(data[f])
  {
    AllFieldsRequired();
  }

  /**
   * What an edit stores: the typed value, or for the phone the calling code, a space
   * and the formatted national part. Stripping the calling code from a stored phone,
   * as the phone input does when it shows the value, gives back the formatted part
   * whenever that part does not start with whitespace.
   */
  function EnteredValue(field: Field, value: string, country: string, calling: string, fmt: PhoneFormatter): (r: string)
    ensures field != Phone ==> r == value
    ensures field == Phone ==> |r| > |calling| && r[..|calling|] == calling && r[|calling|] == ' '
    ensures field == Phone ==> r[|calling| + 1..] == fmt(country, StripCallingCode(value))
    ensures var national := fmt(country, StripCallingCode(value));
            field == Phone && IsCallingCode(calling) && (national == [] || !IsJsSpace(national[0]))
            ==> StripCallingCode(r) == national
  {
    if field == Phone then
      var national := fmt(country, StripCallingCode(value));
      assert IsCallingCode(calling) && (national == [] || !IsJsSpace(national[0]))
             ==> StripCallingCode(calling + " " + national) == national by {
        if IsCallingCode(calling) && (national == [] || !IsJsSpace(national[0])) {
          StripAfterCallingCode(calling, national);
        }
      }
      calling + " " + national
    else value
  }

  /** The error map after an edit of `field`: a truthy entry of that field becomes `Cleared`. */
  function ClearError(errs: map<Field, FieldError>, field: Field): (r: map<Field, FieldError>)
    ensures r.Keys == errs.Keys
    ensures forall g :: g in errs && g != field ==> r[g] == errs[g]
    ensures field in r ==> !Raised(r[field])
  {
    if field in errs && Raised(errs[field]) then errs[field := Cleared] else errs
  }

  /**
   * The phone field shows the stored value with its calling code removed. When the
   * formatter's output does not start with whitespace, that shown text is exactly the
   * formatted national part, and typing it back in stores the same value again,
   * provided the formatter leaves its own output as it is.
   */
  lemma PhoneEntryStable(calling: string, country: string, fmt: PhoneFormatter, value: string)
    requires IsCallingCode(calling)
    requires var national := fmt(country, StripCallingCode(value));
             national == [] || !IsJsSpace(national[0])
    requires var national := fmt(country, StripCallingCode(value));
             national == [] || national[0] != '+'
    requires var national := fmt(country, StripCallingCode(value));
             fmt(country, national) == national
    ensures var stored := EnteredValue(Phone, value, country, calling, fmt);
            && StripCallingCode(stored) == fmt(country, StripCallingCode(value))
            && EnteredValue(Phone, StripCallingCode(stored), country, calling, fmt) == stored
  {
    var national := fmt(country, StripCallingCode(value));
    StripAfterCallingCode(calling, national);
    assert StripCallingCode(national) == national;
  }

  /** The masked phone of a stored value shows the last two characters of the formatted national part, or the placeholder. */
  lemma HiddenStoredPhone(calling: string, country: string, fmt: PhoneFormatter, value: string)
    requires IsCallingCode(calling)
    requires var national := fmt(country, StripCallingCode(value));
             national == [] || !IsJsSpace(national[0])
    ensures var national := fmt(country, StripCallingCode(value));
            var shown := HidePhone(EnteredValue(Phone, value, country, calling, fmt));
            if |national| < 2 then shown == PhonePlaceholder
            else shown == Stars(6) + national[|national| - 2..]
  {
    var national := fmt(country, StripCallingCode(value));
    StripAfterCallingCode(calling, national);
  }

  /** A well-formed address whose local part has at least two characters is masked by `hideEmail`. */
  lemma ValidEmailIsMasked(email: string)
    requires ValidateEmail(email)
    requires FirstIndex(email, '@') >= 2
    ensures Maskable(email)
  {
    ValidEmailShape(email);
    var k := IndexOf(email, '@').value;
    assert k == FirstIndex(email, '@');
    var d := email[k + 1..];
    var j :| 0 < j < |d| - 1 && d[j] == '.';
    assert '.' in d;
  }

  /** The `requiredFields.forEach` pass of `validateForm`: exactly the fields whose trimmed value is empty are flagged, as `Required`. */
  method FlagEmptyFields(data: map<Field, string>) returns (flagged: map<Field, FieldError>)
    requires Complete(data)
    ensures forall f: Field :: f in flagged <==> Trim(data[f]) == []
    ensures forall f :: f in flagged ==> flagged[f] == Required
  {
    flagged := map[];
    var i := 0;
    while i < |RequiredFields|
      invariant 0 <= i <= |RequiredFields|
      invariant forall f :: f in flagged <==> f in RequiredFields[..i] && Trim(data[f]) == []
      invariant forall f :: f in flagged ==> flagged[f] == Required
    {
      var field := RequiredFields[i];
      assert RequiredFields[..i + 1] == RequiredFields[..i] + [field];
      if Trim(data[field]) == [] {
        flagged := flagged[field := Required];
      }
      i := i + 1;
    }
    assert RequiredFields[..i] == RequiredFields;
    AllFieldsRequired();
  }

  /**
   * The checks of `validateForm` on the field values: the empty fields are flagged,
   * then a non-empty address the e-mail check rejects is flagged as malformed.
   */
  method CollectErrors(data: map<Field, string>) returns (newErrors: map<Field, FieldError>)
    requires Complete(data)
    ensures newErrors == FormErrors(data)
  {
    var flagged := FlagEmptyFields(data);
    newErrors := flagged;
    if Trim(data[Mail]) != [] && !ValidateEmail(data[Mail]) {
      newErrors := newErrors[Mail := InvalidFormat];
    }
    FormErrorsOf(data, flagged);
  }

  /** The state of the appeal form. */
  class HomeForm {
    /** The untranslated text table the translator reads from. */
    const defaultTexts: Translation.TextTable
    var formData: map<Field, string>
    var errors: map<Field, FieldError>
    var translatedTexts: Translation.TextTable
    var countryCode: string
    var callingCode: string
    var isFormEnabled: bool
    var isSubmitting: bool

    /** Every field has a value, the calling code is `+` and digits, and both text tables hold a text for every key. */
    predicate Valid()
      reads this
    {
      && Complete(formData)
      && IsCallingCode(callingCode)
      && Translation.IsComplete(defaultTexts)
      && Translation.IsComplete(translatedTexts)
    }

    /** The initial state: empty fields, no errors, the default texts, the US locale, and the form disabled. */
    constructor (defaults: Translation.TextTable)
      requires Translation.IsComplete(defaults)
      ensures Valid()
      ensures defaultTexts == defaults && translatedTexts == defaults
      ensures formData == map f | f in RequiredFields :: ""
      ensures errors == map[]
      ensures countryCode == "US" && callingCode == "+1"
      ensures !isFormEnabled && !isSubmitting
    {
      AllFieldsRequired();
      assert IsCallingCode("+1") by { assert "+1"[1..] == "1"; }
      defaultTexts := defaults;
      formData := map f | f in RequiredFields :: "";
      errors := map[];
      translatedTexts := defaults;
      countryCode := "US";
      callingCode := "+1";
      isFormEnabled := false;
      isSubmitting := false;
    }

    /** `setIsFormEnabled(true)`, after the security step or its two-second fallback. */
    method Enable()
      requires Valid()
      modifies this`isFormEnabled
      ensures Valid()
      ensures isFormEnabled
    {
      isFormEnabled := true;
    }

    /** `setIsSubmitting(b)`, around a submission. */
    method SetSubmitting(b: bool)
      requires Valid()
      modifies this`isSubmitting
      ensures Valid()
      ensures isSubmitting == b
    {
      isSubmitting := b;
    }

    /**
     * `setCountryCode` and `setCallingCode` with a detected locale or the US fallback;
     * the calling code is always `+` followed by the digits of the country's code.
     */
    method SetLocale(country: string, calling: string)
      requires Valid()
      requires IsCallingCode(calling)
      modifies this`countryCode, this`callingCode
      ensures Valid()
      ensures countryCode == country && callingCode == calling
    {
      countryCode := country;
      callingCode := calling;
    }

    /**
     * `validateForm`: does nothing and fails while the form is disabled or submitting;
     * otherwise replaces the error map by the one `FormErrors` describes and succeeds
     * exactly when that map is empty.
     */
    method ValidateForm() returns (ok: bool)
      requires Valid()
      modifies this`errors
      ensures Valid()
      ensures !isFormEnabled || isSubmitting ==> !ok && errors == old(errors)
      ensures isFormEnabled && !isSubmitting ==> errors == FormErrors(formData) && (ok <==> errors == map[])
    {
      if !isFormEnabled || isSubmitting {
        return false;
      }
      var newErrors := CollectErrors(formData);
      errors := newErrors;
      ok := |newErrors| == 0;
    }

    /**
     * `handleInputChange`: does nothing while the form is disabled or submitting;
     * otherwise stores the entered value of `field` alone and clears that field's error.
     */
    method HandleInputChange(field: Field, value: string, fmt: PhoneFormatter)
      requires Valid()
      modifies this`formData, this`errors
      ensures Valid()
      ensures if !isFormEnabled || isSubmitting then formData == old(formData) && errors == old(errors)
              else && formData == old(formData)[field := EnteredValue(field, value, countryCode, callingCode, fmt)]
                   && errors == ClearError(old(errors), field)
      ensures var national := fmt(countryCode, StripCallingCode(value));
              isFormEnabled && !isSubmitting && field == Phone && (national == [] || !IsJsSpace(national[0]))
              ==> StripCallingCode(formData[Phone]) == national
    {
      if !isFormEnabled || isSubmitting {
        return;
      }
      if field == Phone {
        var cleanValue := StripCallingCode(value);
        var formattedValue := fmt(countryCode, cleanValue);
        assert callingCode + " " + formattedValue == EnteredValue(field, value, countryCode, callingCode, fmt);
        formData := formData[field := callingCode + " " + formattedValue];
      } else {
        formData := formData[field := value];
      }
      if field in errors && Raised(errors[field]) {
        errors := errors[field := Cleared];
      }
    }

    /** `translateRemainingTexts`: overlays the second batch when all of its requests succeed. */
    method TranslateRemainingTexts(lang: string, translate: (string, string) -> Option<string>)
      requires Valid()
      modifies this`translatedTexts
      ensures Valid()
      ensures translatedTexts == Translation.ApplyBatch(old(translatedTexts), Translation.TranslateBatch(Translation.RemainingKeys, defaultTexts, lang, translate))
    {
      var batch := Translation.TranslateBatch(Translation.RemainingKeys, defaultTexts, lang, translate);
      Translation.ApplyBatchOverwrites(translatedTexts, Translation.RemainingKeys, defaultTexts, lang, translate);
      translatedTexts := Translation.ApplyBatch(translatedTexts, batch);
    }

    /**
     * `translateCriticalTexts`: overlays the first batch when all of its requests
     * succeed and only then runs the second; a failed first batch changes nothing.
     */
    method TranslateCriticalTexts(lang: string, translate: (string, string) -> Option<string>)
      requires Valid()
      modifies this`translatedTexts
      ensures Valid()
      ensures var critical := Translation.TranslateBatch(Translation.CriticalKeys, defaultTexts, lang, translate);
              translatedTexts == if critical.None? then old(translatedTexts)
                                 else Translation.ApplyBatch(Translation.ApplyBatch(old(translatedTexts), critical),
                                                 Translation.TranslateBatch(Translation.RemainingKeys, defaultTexts, lang, translate))
    {
      var critical := Translation.TranslateBatch(Translation.CriticalKeys, defaultTexts, lang, translate);
      if critical.Some? {
        Translation.ApplyBatchOverwrites(translatedTexts, Translation.CriticalKeys, defaultTexts, lang, translate);
        translatedTexts := Translation.ApplyBatch(translatedTexts, critical);
        TranslateRemainingTexts(lang, translate);
      }
    }

    /** The language gate of the security step: no translation runs for the default language. */
    method TranslateFor(lang: string, translate: (string, string) -> Option<string>)
      requires Valid()
      modifies this`translatedTexts
      ensures Valid()
      ensures lang == Translation.DefaultLanguage ==> translatedTexts == old(translatedTexts)
      ensures lang != Translation.DefaultLanguage ==>
                var critical := Translation.TranslateBatch(Translation.CriticalKeys, defaultTexts, lang, translate);
                translatedTexts == if critical.None? then old(translatedTexts)
                                   else Translation.ApplyBatch(Translation.ApplyBatch(old(translatedTexts), critical),
                                                   Translation.TranslateBatch(Translation.RemainingKeys, defaultTexts, lang, translate))
      ensures (forall t, l :: translate(t, l).None?) ==> translatedTexts == old(translatedTexts)
    {
      if forall t, l :: translate(t, l).None? {
        Translation.FailingTranslatorFailsBatch(Translation.CriticalKeys, defaultTexts, lang, translate);
      }
      if lang != Translation.DefaultLanguage {
        TranslateCriticalTexts(lang, translate);
      }
    }
  }
}
