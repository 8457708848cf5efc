# Home page form helpers and form state

A Dafny model of the self-contained parts of the home page component
(`src/pages/home.jsx`): the text helpers it uses for display and redaction,
the e-mail shape check, the rules by which the appeal form accepts edits and
validates its five fields, and the way translated text batches are overlaid
on the page's text table.

Modules:

- `Wrappers` and `Text` (text.dfy): `Option`, and the JavaScript string
  primitives the page relies on, written over `seq<char>`: the whitespace class
  of `\s` and `trim`, `split` and `join` with a one-character separator,
  `'*'.repeat(n)` (with `IndexOf` only as the helper `Split` is built on).
  `JoinSplit` and `TrimEmptyIffBlank` relate them.
- `Email` (email.dfy): `validateEmail` as a structural predicate, proved equal
  to a literal reading of the regular expression `^[^\s@]+@[^\s@]+\.[^\s@]+$`.
- `Dates` (dates.dfy): the `YYYY-MM-DD` to `DD/MM/YYYY` display transform.
- `Masking` (masking.dfy): `hideEmail`, `hidePhone` and the calling-code
  prefix removal `^\+\d+\s*` that the phone handler shares with `hidePhone`.
- `Translation` (translation.dfy): the 29 keys of the text table, the critical
  and remaining batches, one batch of translation requests (all succeed or the
  batch fails) and the `{...prev, ...batch}` overlay.
- `Home` (home.dfy): the error map that `validateForm` must build, the loop
  that builds it, and the class `HomeForm` holding `formData`, `errors`,
  `translatedTexts`, the locale and the `isFormEnabled` / `isSubmitting` flags,
  whose methods are `validateForm`, `handleInputChange` and the two
  translation steps.

The phone formatter (`new AsYouType(country).input(...)`) and the translator
(`translateText`, a name the file uses but never binds; see "Left out") are function parameters: `(country, digits) -> string` and
`(text, language) -> Option<string>`, with `None` for a failed request.

The error map has three kinds of value: `Required` for the source's `true`,
`InvalidFormat` for `'invalid'`, and `Cleared` for the `false` that an edit
writes. The first two are truthy in `if (errors[field])`; `Cleared` is not.

Points where the code decides what the behaviour is:

- `hideEmail` returns an input with no `@`, more than one `@`, a one-character
  local part or a dot-less domain unchanged. It does not return a placeholder.
  The placeholder `s****g@m****.com` is returned only for the empty string.
- `hidePhone` keeps the last two characters of what is left after the
  calling code, whatever they are. They need not be digits.
- The phone input shows the stored value with `^\+\d+\s*` removed, and every
  keystroke removes it again before formatting. A formatted national part that
  itself starts with `+digits` therefore loses that prefix on the next
  keystroke: with calling code `+1`, a stored `+1 +4 5` is shown as `+4 5`, and
  typing into it stores `+1 5`. A formatted part that starts with whitespace
  loses that whitespace the same way.
- `validateForm` tests `validateEmail` on the untrimmed address. Only the
  emptiness test uses `trim`.

## Model

| member | source | states |
|---|---|---|
| `Text.JoinSplit` | src/pages/home.jsx:242 | joining the parts that `split` gives, with the same separator, gives back the original string |
| `Text.TrimEmptyIffBlank` | src/pages/home.jsx:290 | `s.trim() === ''` holds exactly when every character of `s` is whitespace |
| `Text.TrimKeepsInner` | src/pages/home.jsx:290 | what `trim` keeps is a slice of the string that neither starts nor ends with whitespace, and everything it drops is whitespace |
| `Email.ValidateEmailIffRegex` | src/pages/home.jsx:217-219 | the structural check (a non-empty local part, the first `@`, a domain with an inner dot, no whitespace and no second `@`) accepts exactly the strings the regular expression matches |
| `Email.ValidEmailShape` | src/pages/home.jsx:217-219 | an accepted address is non-empty, holds exactly one `@` and holds no whitespace |
| `Email.ValidateEmail` | src/pages/home.jsx:217-219 | an accepted address has at least five characters and neither starts nor ends with whitespace or `@` |
| `Email.MatchesEmailRegex` | src/pages/home.jsx:218 | a string the regular expression matches has at least five characters and holds an `@` and a `.` |
| `Dates.FormatDateToDDMMYYYY` | src/pages/home.jsx:222-223 | the empty string is shown as the empty string |
| `Dates.FormatDateOfIso` | src/pages/home.jsx:224-226 | a value `year-month-day` whose parts hold no `-` is shown as `day/month/year` |
| `Dates.FormatDatePassThrough` | src/pages/home.jsx:224-225 | a value that does not split on `-` into exactly three parts is shown unchanged |
| `Dates.FormatDateShape` | src/pages/home.jsx:222-227 | the shown value has the length of the stored one, and has no `-` when the stored one had exactly two |
| `Dates.FormatDateIdempotent` | src/pages/home.jsx:222-227 | formatting a formatted value changes nothing |
| `Masking.HideEmail` | src/pages/home.jsx:229-230 | the empty address is shown as the placeholder `s****g@m****.com` |
| `Masking.FormatUsername` | src/pages/home.jsx:241 | the masked local part has the original's length, keeps its first and last characters, and has `*` everywhere between |
| `Masking.FormatDomain` | src/pages/home.jsx:242 | the masked domain keeps the first character of the first label, has `*` for the label's other characters, then `.` and the remaining labels joined by `.` |
| `Masking.HideEmailPassThrough` | src/pages/home.jsx:231-239 | a non-empty address without exactly one `@`, or with a local part of at most one character, or with no `.` in the domain, is returned unchanged |
| `Masking.HideEmailOfParts` | src/pages/home.jsx:234-244 | an address `u@first.rest` is masked to the masked local part, `@`, the first character of `first` and `*` for each of its other characters, `.`, and `rest` unchanged |
| `Masking.HideEmailMasks` | src/pages/home.jsx:241-244 | a maskable address keeps its length; the interior of the local part and every character of the first domain label after its first become `*`; every other character is kept |
| `Masking.HideEmailKeepsSingleAt` | src/pages/home.jsx:241-244 | a masked address has exactly one `@`, where the original had it |
| `Masking.HideEmailExample` | src/pages/home.jsx:241-244 | `ab@domain.com` is masked to `ab@d*****.com` |
| `Masking.StripCallingCode` | src/pages/home.jsx:249 | what is left after the prefix is removed is a suffix of the input |
| `Masking.StripCallingCodeLongestMatch` | src/pages/home.jsx:249 | the removed prefix is the longest one matched by `\+\d+\s*`; the input is unchanged exactly when no prefix matches |
| `Masking.StripAfterCallingCode` | src/pages/home.jsx:259-262 | removing the prefix from `callingCode + " " + national` gives `national` back, when `national` does not start with whitespace |
| `Masking.HidePhone` | src/pages/home.jsx:247-253 | the result has 8 characters and starts with six `*`; it is `******32` for an empty number or one with fewer than two characters left after the calling code, and otherwise ends with the last two characters of the number |
| `Masking.HidePhoneExample` | src/pages/home.jsx:247-253 | `+1 5551234567` is masked to `******67` |
| `Translation.BatchesPartitionKeys` | src/pages/home.jsx:136-194 | every key of the text table is in exactly one of the two batches |
| `Translation.TranslateBatch` | src/pages/home.jsx:136-150 | a batch succeeds exactly when every one of its requests succeeds; it then holds exactly its own keys, each with its translated default text |
| `Translation.ApplyBatch` | src/pages/home.jsx:152-167 | a failed batch leaves the table as it was; after a successful one, a key of the batch has the batch's text, every other key keeps its text, and no key is lost or added |
| `Translation.ApplyBatchOverwrites` | src/pages/home.jsx:152-167 | a successful batch overwrites exactly its keys and keeps every other key's text; a failed batch leaves the table unchanged |
| `Translation.BothBatchesTranslateAll` | src/pages/home.jsx:152-201 | when every translation request succeeds, every text of the table ends up as the translation of its default |
| `Translation.FailedSecondBatchKeepsFirst` | src/pages/home.jsx:196-204 | when every request of the first batch succeeds and one request of the second fails, the critical keys are translated and every other key keeps its earlier text |
| `Translation.FailingTranslatorFailsBatch` | src/pages/home.jsx:136-150 | a translator whose every request fails makes every non-empty batch fail |
| `Home.AllFieldsRequired` | src/pages/home.jsx:286 | the validator visits every one of the five fields |
| `Home.FlagEmptyFields` | src/pages/home.jsx:286-293 | the `forEach` pass flags exactly the fields whose trimmed value is empty, each as `Required` |
| `Home.FormErrorsOf` | src/pages/home.jsx:289-297 | the flagged empty fields, plus `InvalidFormat` for a non-empty address the e-mail check rejects, are the error map the validator must produce |
| `Home.FormErrors` | src/pages/home.jsx:286-297 | the validator never writes the falsy entry an edit leaves, and `InvalidFormat` goes only to the mail field |
| `Home.CollectErrors` | src/pages/home.jsx:286-297 | the error map that is built equals the required one |
| `Home.FormErrorsEmptyIff` | src/pages/home.jsx:283-300 | the error map is empty exactly when every field has a non-blank value and the address is well formed |
| `Home.FormErrorsKinds` | src/pages/home.jsx:289-297 | a field is `Required` exactly when it is blank; `InvalidFormat` is given only to the address, exactly when it is non-blank and rejected |
| `Home.ValidMailNeverFlagged` | src/pages/home.jsx:295-297 | a well-formed address never puts the mail field in error |
| `Home.ClearError` | src/pages/home.jsx:275-280 | an edit keeps the set of keys of the error map and every other field's entry, and leaves the edited field's entry falsy |
| `Home.EnteredValue` | src/pages/home.jsx:258-273 | a field other than the phone stores the typed value; the phone stores the calling code and a space in front of the formatted part, and with a `+digits` calling code, stripping it gives that formatted part back when the part does not start with whitespace |
| `Home.PhoneEntryStable` | src/pages/home.jsx:258-262 | for a `+digits` calling code and a formatter that leaves its own output unchanged, when that output starts with neither whitespace nor `+`, the shown national part of a stored phone is the formatter's output, and typing it back in stores the same value |
| `Home.HiddenStoredPhone` | src/pages/home.jsx:247-262 | the masked form of a stored phone value ends with the last two characters of the formatted national part, or is the placeholder |
| `Home.ValidEmailIsMasked` | src/pages/home.jsx:217-244 | a well-formed address whose local part has at least two characters is one that `hideEmail` masks |
| `Home.HomeForm.constructor` | src/pages/home.jsx:49-64 | the form starts with five empty fields, no errors, the default texts, the US locale with `+1`, and both flags off |
| `Home.HomeForm.Enable` | src/pages/home.jsx:210-212 | the form is enabled |
| `Home.HomeForm.SetSubmitting` | src/pages/home.jsx:308 | the submitting flag takes the given value |
| `Home.HomeForm.SetLocale` | src/pages/home.jsx:109-128 | the country and calling code take the given values; the calling code must be `+` followed by digits, as both the detected code and the `+1` fallback are, and the form's invariant keeps that fact |
| `Home.HomeForm.ValidateForm` | src/pages/home.jsx:283-300 | while the form is disabled or submitting, it fails and leaves the errors alone; otherwise the error map becomes the required one, and the form is valid exactly when that map is empty |
| `Home.HomeForm.HandleInputChange` | src/pages/home.jsx:255-281 | while the form is disabled or submitting, nothing changes; otherwise only the edited field changes, to the typed value or for the phone to the calling code, a space and the formatted national part, and only that field's error is cleared; a stored phone, shown without its calling code, is the formatter's output when that output does not start with whitespace |
| `Home.HomeForm.TranslateRemainingTexts` | src/pages/home.jsx:175-205 | the text table becomes the old one overlaid with the remaining batch, or stays as it was when that batch fails |
| `Home.HomeForm.TranslateCriticalTexts` | src/pages/home.jsx:134-173 | a failed critical batch changes nothing; a successful one is overlaid first and only then is the remaining batch run and overlaid |
| `Home.HomeForm.TranslateFor` | src/pages/home.jsx:112-117 | no batch runs when the target language is `en`; otherwise the critical step runs; a translator whose every request fails leaves the table unchanged |

## Left out

- Bot detection and the redirect that follows it: an external classifier, and not part of the form's behaviour.
- Submission: `handleSubmit`, the message built from the form and its dispatch, the 500 ms pause, the local storage of the masked record and of the geolocation result, and the password prompt that follows. These are network and storage I/O and are not modelled.
- The geolocation request and the derivation of the country, the calling code and the target language in `initializeSecurity` (the `countryToLanguage` table and `getCountryCallingCode`). These are foreign calls. `HomeForm.SetLocale` takes their result as arguments, and `HomeForm.TranslateFor` takes the language.
- `AsYouType` formatting: foreign code, taken as a function parameter.
- `translateText`: the name is neither imported nor declared in `src/pages/home.jsx`. Unless some global provides it, the first call at line 137 throws a `ReferenceError` while the `Promise.all` arguments are being built. The catch at lines 170-171 swallows it, the critical batch fails, the remaining batch is never started, and the table keeps its default texts. The model takes the translator as a parameter. The unbound case is a translator whose every request fails, and `HomeForm.TranslateFor` states that the table is then unchanged. A translator that answers differently to the same request over time is not modelled.
- The literal default texts of the table: `HomeForm` takes any table with a text for each of the 29 keys.
- Meta tags, the document title, the 2-second enable timer and its cleanup, focus handling and all rendering: DOM, timers and UI. `HomeForm.Enable` is the state change the timer makes.
- React state updates are modelled as taking effect at once. The model does not capture a render that still sees the old `errors` or `formData`, or two updates queued before a render.
- Asynchrony: a batch is modelled as one atomic step, so interleavings with edits while requests are in flight are not modelled; they cannot touch the same state.
- Strings are sequences of Unicode scalar values, while JavaScript strings are UTF-16 code units. Lengths, `charAt` and `slice(-2)` therefore differ from the source for characters outside the Basic Multilingual Plane.
