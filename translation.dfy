/**
 * The text table of the home page and the two translation batches that overlay it:
 * the critical batch (page chrome, form labels, button and status strings) and the
 * remaining batch (navigation, footer links, placeholder and validation messages).
 * The translation service is a parameter: `translate(text, language)` is `None`
 * when its request fails.
 */
module Translation {
  import opened Wrappers

  /** The keys of the page's text table, one constructor per key of `defaultTexts`. */
  datatype TextKey =
    | HelpCenter | English | Using | ManagingAccount | PrivacySecurity | PoliciesReporting
    | PagePolicyAppeals | DetectedActivity | AccessLimited | SubmitAppeal | PageName | Mail
    | Phone | Birthday | YourAppeal | AppealPlaceholder | Submit | FieldRequired | InvalidEmail
    | About | AdChoices | CreateAd | Privacy | Careers | CreatePage | TermsPolicies | Cookies
    | PleaseWait | CheckingSecurity

  /** A text table holding a text for every key. */
  type TextTable = map<TextKey, string>

  predicate IsComplete(texts: TextTable) {
    forall k: TextKey :: k in texts
  }

  /** The keys of the first batch, in the order of its requests. */
  const CriticalKeys: seq<TextKey> := [
    HelpCenter, PagePolicyAppeals, DetectedActivity, AccessLimited, SubmitAppeal,
    PageName, Mail, Phone, Birthday, YourAppeal, Submit, PleaseWait, CheckingSecurity
  ]

  /** The keys of the second batch, in the order of its requests. */
  const RemainingKeys: seq<TextKey> := [
    English, Using, ManagingAccount, PrivacySecurity, PoliciesReporting,
    AppealPlaceholder, FieldRequired, InvalidEmail, About, AdChoices, CreateAd,
    Privacy, Careers, CreatePage, TermsPolicies, Cookies
  ]

  /** The language in which the default table is written; no batch runs for it. */
  const DefaultLanguage: string := "en"

  /** Whether a key's text is requested in the first batch. */
  predicate IsCritical(k: TextKey) {
    || k.HelpCenter? || k.PagePolicyAppeals? || k.DetectedActivity? || k.AccessLimited? || k.SubmitAppeal?
    || k.PageName? || k.Mail? || k.Phone? || k.Birthday? || k.YourAppeal? || k.Submit? || k.PleaseWait?
    || k.CheckingSecurity?
  }

  lemma CriticalKeysAreCritical()
    ensures forall k :: k in CriticalKeys ==> IsCritical(k)
  {
  }

  lemma RemainingKeysAreNotCritical()
    ensures forall k :: k in RemainingKeys ==> !IsCritical(k)
  {
  }

  lemma BatchesCoverKeys()
    ensures forall k: TextKey :: k in CriticalKeys || k in RemainingKeys
  {
    forall k: TextKey ensures k in CriticalKeys || k in RemainingKeys {
      if IsCritical(k) {
        match k
        case HelpCenter => assert CriticalKeys[0] == k;
        case PagePolicyAppeals => assert CriticalKeys[1] == k;
        case DetectedActivity => assert CriticalKeys[2] == k;
        case AccessLimited => assert CriticalKeys[3] == k;
        case SubmitAppeal => assert CriticalKeys[4] == k;
        case PageName => assert CriticalKeys[5] == k;
        case Mail => assert CriticalKeys[6] == k;
        case Phone => assert CriticalKeys[7] == k;
        case Birthday => assert CriticalKeys[8] == k;
        case YourAppeal => assert CriticalKeys[9] == k;
        case Submit => assert CriticalKeys[10] == k;
        case PleaseWait => assert CriticalKeys[11] == k;
        case CheckingSecurity => assert CriticalKeys[12] == k;
      } else {
        match k
        case English => assert RemainingKeys[0] == k;
        case Using => assert RemainingKeys[1] == k;
        case ManagingAccount => assert RemainingKeys[2] == k;
        case PrivacySecurity => assert RemainingKeys[3] == k;
        case PoliciesReporting => assert RemainingKeys[4] == k;
        case AppealPlaceholder => assert RemainingKeys[5] == k;
        case FieldRequired => assert RemainingKeys[6] == k;
        case InvalidEmail => assert RemainingKeys[7] == k;
        case About => assert RemainingKeys[8] == k;
        case AdChoices => assert RemainingKeys[9] == k;
        case CreateAd => assert RemainingKeys[10] == k;
        case Privacy => assert RemainingKeys[11] == k;
        case Careers => assert RemainingKeys[12] == k;
        case CreatePage => assert RemainingKeys[13] == k;
        case TermsPolicies => assert RemainingKeys[14] == k;
        case Cookies => assert RemainingKeys[15] == k;
      }
    }
  }

  /** The two batches together cover every key of the table, and no key is in both. */
  lemma BatchesPartitionKeys()
    ensures forall k :: k in CriticalKeys <==> k !in RemainingKeys
  {
    CriticalKeysAreCritical();
    RemainingKeysAreNotCritical();
    BatchesCoverKeys();
  }

  /**
   * One batch of `Promise.all` requests: each key's default text is sent to the
   * translator; the batch yields a text for every key when all requests succeed,
   * and nothing when any of them fails.
   */
  function TranslateBatch(keys: seq<TextKey>, defaults: TextTable, lang: string,
                          translate: (string, string) -> Option<string>): (r: Option<TextTable>)
    requires IsComplete(defaults)
    ensures r.Some? <==> forall i :: 0 <= i < |keys| ==> translate(defaults[keys[i]], lang).Some?
    ensures r.Some? ==> forall k :: k in r.value <==> k in keys
    ensures r.Some? ==> forall k :: k in r.value ==> Some(r.value[k]) == translate(defaults[k], lang)
  {
    if keys == [] then Some(map[])
    else
      match translate(defaults[keys[0]], lang)
      case None => None
      case Some(text) =>
        match TranslateBatch(keys[1..], defaults, lang, translate)
        case None => None
        case Some(m) => Some(m[keys[0] := text])
  }

  /**
   * `setTranslatedTexts(prev => ({...prev, ...batch}))` when the batch succeeded; nothing
   * otherwise. Key by key: a key of the batch takes the batch's text, any other key
   * keeps its text, and no key is lost or invented.
   */
  function ApplyBatch(texts: TextTable, batch: Option<TextTable>): (r: TextTable)
    ensures batch.None? ==> r == texts
    ensures batch.Some? ==> forall k :: k in r <==> k in texts || k in batch.value
    ensures batch.Some? ==> forall k :: k in r ==> r[k] == if k in batch.value then batch.value[k] else texts[k]
  {
    match batch
    case None => texts
    case Some(b) => texts + b
  }

  /**
   * Applying a batch overwrites exactly its own keys with their translations and
   * keeps every other key's text; a failed batch changes nothing.
   */
  lemma ApplyBatchOverwrites(texts: TextTable, keys: seq<TextKey>, defaults: TextTable,
                             lang: string, translate: (string, string) -> Option<string>)
    requires IsComplete(defaults) && IsComplete(texts)
    ensures var batch := TranslateBatch(keys, defaults, lang, translate);
            var r := ApplyBatch(texts, batch);
            && IsComplete(r)
            && (batch.None? ==> r == texts)
            && (batch.Some? ==> forall k :: k in r ==>
                  if k in keys then Some(r[k]) == translate(defaults[k], lang) else r[k] == texts[k])
  {
  }

  /** When every request succeeds, both batches succeed and every text of the table is the translation of its default. */
  lemma BothBatchesTranslateAll(texts: TextTable, defaults: TextTable, lang: string,
                                translate: (string, string) -> Option<string>)
    requires IsComplete(defaults) && IsComplete(texts)
    requires forall k: TextKey :: translate(defaults[k], lang).Some?
    ensures var r := ApplyBatch(ApplyBatch(texts, TranslateBatch(CriticalKeys, defaults, lang, translate)),
                                TranslateBatch(RemainingKeys, defaults, lang, translate));
            forall k: TextKey :: Some(r[k]) == translate(defaults[k], lang)
  {
    BatchesPartitionKeys();
  }

  /** When every request of the first batch succeeds and one of the second fails, the critical keys are translated and every other key keeps its earlier text. */
  lemma FailedSecondBatchKeepsFirst(texts: TextTable, defaults: TextTable, lang: string,
                                    translate: (string, string) -> Option<string>)
    requires IsComplete(defaults) && IsComplete(texts)
    requires forall k :: k in CriticalKeys ==> translate(defaults[k], lang).Some?
    requires exists k :: k in RemainingKeys && translate(defaults[k], lang).None?
    ensures var r := ApplyBatch(ApplyBatch(texts, TranslateBatch(CriticalKeys, defaults, lang, translate)),
                                TranslateBatch(RemainingKeys, defaults, lang, translate));
            forall k: TextKey :: r[k] == if k in CriticalKeys then translate(defaults[k], lang).value else texts[k]
  {
  }

  /**
   * A translator whose every request fails (as when its name is unbound and the first
   * call throws inside the `Promise.all` argument list) makes the critical batch fail.
   */
  lemma FailingTranslatorFailsBatch(keys: seq<TextKey>, defaults: TextTable, lang: string,
                                     translate: (string, string) -> Option<string>)
    requires IsComplete(defaults)
    requires keys != []
    requires forall t, l :: translate(t, l).None?
    ensures TranslateBatch(keys, defaults, lang, translate).None?
  {
    assert translate(defaults[keys[0]], lang).None?;
  }
}
