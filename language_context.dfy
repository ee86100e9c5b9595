/**
 * The client's language: the current language, kept in `localStorage` under
 * `language`, and the translation lookup that falls back to Serbian and then
 * to the key itself.
 */
module LanguageContext {
  import opened Wrappers

  /** The translation tables by language and key. */
  type Translations = map<string, map<string, string>>

  const DefaultLanguage: string := "sr"
  const StorageKey: string := "language"

  /** `translations[language][key]` exists and is not the empty string. */
  predicate HasEntry(translations: Translations, language: string, key: string)
  {
    language in translations && key in translations[language] && translations[language][key] != ""
  }

  /**
   * `useTranslation()(key)`: the current language's entry, else the Serbian
   * entry, else the key; an empty entry counts as missing. `None` is the
   * `TypeError` the lookup throws when the current table has no entry and
   * there is no Serbian table to fall back on.
   */
  function Translate(translations: Translations, language: string, key: string): (text: Option<string>)
    ensures HasEntry(translations, language, key) ==> text == Some(translations[language][key])
    ensures !HasEntry(translations, language, key) && HasEntry(translations, DefaultLanguage, key) ==>
      text == Some(translations[DefaultLanguage][key])
    ensures !HasEntry(translations, language, key) && !HasEntry(translations, DefaultLanguage, key) ==>
      text == (if DefaultLanguage in translations then Some(key) else None)
    ensures text.Some? && key != "" ==> text.value != ""
  {
    if HasEntry(translations, language, key) then Some(translations[language][key])
    else if DefaultLanguage !in translations then None
    else if HasEntry(translations, DefaultLanguage, key) then Some(translations[DefaultLanguage][key])
    else Some(key)
  }

  /** A language without an entry for the key, unknown ones included, reads the Serbian result. */
  lemma TranslateFallsBack(translations: Translations, language: string, key: string)
    requires !HasEntry(translations, language, key)
    ensures Translate(translations, language, key) == Translate(translations, DefaultLanguage, key)
  {
  }

  /**
   * The lookup fails only for a key the current table lacks while the Serbian
   * table is missing; a key the current table holds is answered even then.
   */
  lemma TranslateThrowsIff(translations: Translations, language: string, key: string)
    ensures Translate(translations, language, key).None? <==>
      !HasEntry(translations, language, key) && DefaultLanguage !in translations
  {
  }

  /** `localStorage.getItem("language") || "sr"` */
  function InitialLanguage(storage: map<string, string>): (language: string)
    ensures language != ""
    ensures StorageKey in storage && storage[StorageKey] != "" ==> language == storage[StorageKey]
    ensures !(StorageKey in storage && storage[StorageKey] != "") ==> language == DefaultLanguage
  {
    if StorageKey in storage && storage[StorageKey] != "" then storage[StorageKey] else DefaultLanguage
  }

  /** `LanguageProvider`: the current language and the browser's storage. */
  class LanguageProvider {
    var language: string
    var storage: map<string, string>

    /** Mounting the provider reads the stored language. */
    constructor (storage: map<string, string>)
      ensures language == InitialLanguage(storage) && this.storage == storage
    {
      language := InitialLanguage(storage);
      this.storage := storage;
    }

    /** `changeLanguage(lang)`: sets the language and stores it. */
    method ChangeLanguage(lang: string)
      modifies this
      ensures language == lang
      ensures storage == old(storage)[StorageKey := lang]
      ensures lang != "" ==> InitialLanguage(storage) == lang
    {
      language := lang;
      storage := storage[StorageKey := lang];
    }

    /**
     * The lookup `useTranslation` returns: the current language's entry when
     * it has one, otherwise whatever Serbian gives.
     */
    function T(translations: Translations, key: string): (text: Option<string>)
      reads this
      ensures HasEntry(translations, language, key) ==> text == Some(translations[language][key])
      ensures !HasEntry(translations, language, key) ==> text == Translate(translations, DefaultLanguage, key)
      ensures text.Some? && key != "" ==> text.value != ""
    {
      Translate(translations, language, key)
    }
  }
}
