/**
 * The converter scripts' `localize`: a function object whose mutable `locale` property
 * chooses a translation map. The message is looked up in the locale's map, then in the
 * language's map, and is kept as it is when neither has it. The template is then filled
 * in with the parameters.
 */
module Localizer {
  import opened Wrappers
  import opened JsText
  import opened Template

  /** Translations by locale (`ja`, `ja_JP`, …), each mapping a message to its text. */
  type LocaleMaps = map<string, map<string, string>>

  /** `k` ends a word-character prefix of `locale` that is followed by `_`. */
  predicate LanguageEnd(locale: string, k: nat) {
    1 <= k < |locale| && locale[k] == '_' && forall j :: 0 <= j < k ==> IsWordChar(locale[j])
  }

  /** The largest `j` with `1 <= j < k` and `t[j] == '_'`, or 0 when there is none. */
  function LastUnderscore(t: string, k: nat): (r: nat)
    requires k <= |t|
    ensures r == 0 || (1 <= r < k && t[r] == '_')
    ensures forall j :: r < j < k && 1 <= j ==> t[j] != '_'
    decreases k
  {
    if k <= 1 then 0 else if t[k - 1] == '_' then k - 1 else LastUnderscore(t, k - 1)
  }

  /**
   * `locale.match(/^(\w+)(?=_)/)?.[0] ?? ''`: the greedy word run backs off to the last `_`
   * inside it, so the language is the longest word-character prefix followed by `_`.
   */
  function Language(locale: string): (r: string)
    ensures r != "" ==> LanguageEnd(locale, |r|) && r == locale[..|r|]
    ensures forall k: nat :: LanguageEnd(locale, k) ==> k <= |r|
    ensures r == "" <==> forall k: nat :: !LanguageEnd(locale, k)
  {
    var e := RunEnd(locale, 0, IsWordChar);
    var k := LastUnderscore(locale, e);
    assert forall j: nat :: LanguageEnd(locale, j) ==> j < e by {
      forall j: nat | LanguageEnd(locale, j) ensures j < e {
        assert IsWordChar(locale[j]);
        if e <= j {
          assert false;
        }
      }
    }
    assert forall j: nat :: LanguageEnd(locale, j) ==> j <= k && locale[j] == '_';
    locale[..k]
  }

  /** Regional locales fall back to their language; a plain language has none. */
  lemma LanguageExamples()
    ensures Language("ja_JP") == "ja"
    ensures Language("ja") == ""
    ensures Language("zh_Hant_TW") == "zh_Hant"
  {
    assert LanguageEnd("ja_JP", 2);
    assert !LanguageEnd("ja_JP", 3) && !LanguageEnd("ja_JP", 4);
    assert LanguageEnd("zh_Hant_TW", 7);
    assert forall k :: 7 < k < 10 ==> "zh_Hant_TW"[k] != '_';
  }

  /** `localeMap?.[message] ?? languageMap?.[message] ?? message` */
  function Translation(maps: LocaleMaps, locale: string, message: string): string {
    var language := Language(locale);
    if locale in maps && message in maps[locale] then maps[locale][message]
    else if language in maps && message in maps[language] then maps[language][message]
    else message
  }

  /**
   * The text is the locale's entry, else the language's entry, else the message: in each
   * case one of the maps' entries for the message or the message itself.
   */
  lemma TranslationSource(maps: LocaleMaps, locale: string, message: string)
    ensures var t := Translation(maps, locale, message);
      t == message || exists l :: l in maps && message in maps[l] && t == maps[l][message]
    ensures locale in maps && message in maps[locale] ==> Translation(maps, locale, message) == maps[locale][message]
    ensures (forall l :: l in maps ==> message !in maps[l]) ==> Translation(maps, locale, message) == message
  {
  }

  /**
   * With maps that pass `ValidationLocaleMaps`, the chosen text has the message's
   * placeholders, so the parameters the message's type asks for fill it in.
   */
  lemma TranslationKeepsParameters(maps: LocaleMaps, locale: string, message: string)
    requires ValidLocaleMaps(maps)
    ensures TemplateParameters(Translation(maps, locale, message)) == TemplateParameters(message)
  {
    var language := Language(locale);
    if locale in maps && message in maps[locale] {
      assert Mismatch(message, maps[locale][message]) == {};
    } else if language in maps && message in maps[language] {
      assert Mismatch(message, maps[language][message]) == {};
    }
  }

  /** What `localize(message, params)` returns under `localize.locale`. */
  function Localized(maps: LocaleMaps, locale: Option<string>, message: string, params: map<string, string>): string {
    Substitute(Translation(maps, locale.GetOr(""), message), params)
  }

  /**
   * With valid maps the result depends on the parameters only through the message's own
   * placeholders, and without placeholders not at all: the guarantee `LocalizeParameter`
   * gives callers.
   */
  lemma LocalizedNeedsMessageParameters(maps: LocaleMaps, locale: Option<string>, message: string,
                                        p: map<string, string>, q: map<string, string>)
    requires ValidLocaleMaps(maps)
    requires forall k :: k in TemplateParameters(message) ==> Lookup(p, k) == Lookup(q, k)
    ensures Localized(maps, locale, message, p) == Localized(maps, locale, message, q)
  {
    var t := Translation(maps, locale.GetOr(""), message);
    TranslationKeepsParameters(maps, locale.GetOr(""), message);
    SubstituteLocal(t, p, q);
  }

  /** An untranslated message comes back with the message's own template type. */
  lemma UntranslatedFitsMessage(maps: LocaleMaps, locale: Option<string>, message: string, params: map<string, string>)
    requires forall l :: l in maps ==> message !in maps[l]
    ensures Fits(Tokenize(message), Localized(maps, locale, message, params))
  {
    SubstituteFits(message, params);
  }

  /** The `localize` function object `localizer(map, locale)` returns. */
  class Localize {
    const maps: LocaleMaps
    /** `localize.locale` */
    var locale: Option<string>

    /** `localizer(map, locale)` */
    constructor(maps: LocaleMaps, locale: Option<string>)
      ensures this.maps == maps && this.locale == locale
    {
      this.maps := maps;
      this.locale := locale;
    }

    /** `localize.locale = yargs.locale()` */
    method SetLocale(locale: Option<string>)
      modifies this`locale
      ensures this.locale == locale
    {
      this.locale := locale;
    }

    /**
     * `localize(message, params)`: the chosen translation with each placeholder replaced by
     * its parameter, or by `''` when the parameter is missing.
     */
    method Call(message: string, params: map<string, string>) returns (r: string)
      ensures r == Instantiate(Tokenize(Translation(maps, locale.GetOr(""), message)), params)
      ensures r == Localized(maps, locale, message, params)
    {
      var current := locale.GetOr("");
      var localized := Translation(maps, current, message);
      r := Substitute(localized, params);
      SubstituteIsInstantiate(localized, params);
    }
  }
}
