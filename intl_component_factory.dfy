// The plain (non-React) runtime component (src/client/IntlComponent.ts): it
// substitutes variables but leaves `<element:N>` fragments in the text, picks
// the locale's text or the English one, and lists the dictionary's locales.
// The dictionary it would import is a parameter here.

module IntlComponentFactory {
  import opened Text
  import opened Markup
  import opened Substitution
  import opened DictionaryLoader
  import opened IntlComponent
  import opened Browser

  /** What `parseContent(content, variables)` returns: "" for empty content, otherwise the substituted text. */
  function ParsedText(content: string, variables: Option<Record<string>>): string
  {
    if content == [] then [] else Substituted(content, variables)
  }

  /** `parseContent`, with its `forEach` over the variables. */
  method ParseText(content: string, variables: Option<Record<string>>) returns (r: string)
    ensures r == ParsedText(content, variables)
  {
    if content == [] {
      return [];
    }
    r := Substitute(content, variables);
  }

  /** Without variables, or when none of their placeholders occurs, the text comes back as it is, fragments and all. */
  lemma ParsedTextVerbatim(content: string, variables: Option<Record<string>>)
    requires variables.Some? ==> forall k :: 0 <= k < |variables.value| ==> !Occurs(content, Placeholder(variables.value[k].0))
    ensures ParsedText(content, variables) == content
  {
    if variables.Some? {
      SubstituteAllAbsent(content, variables.value);
    }
  }

  /**
   * The two components substitute alike: the nodes the React component
   * renders are the pieces of the text this one returns, and those pieces put
   * back together are that text.
   */
  lemma ComponentsAgree(content: string, variables: Option<Record<string>>)
    ensures ParseContentOf(content, variables).Parts? ==>
              ParseContentOf(content, variables).parts == PartsOf(ContentPieces(ParsedText(content, variables)), 0)
              && Unparse(ContentPieces(ParsedText(content, variables))) == ParsedText(content, variables)
    ensures ParseContentOf(content, variables).Str? ==> ParseContentOf(content, variables).text == ParsedText(content, variables)
    ensures ParseContentOf(content, variables).Null? <==> content == []
  {
    ParseContentShape(content, variables);
    PatternAnchored();
    PatternRecognises();
    PiecesRoundTrip(MatchPrefix, ParsedText(content, variables));
  }

  // ---------------------------------------------------------------------------
  // The lookup in the `loadDictionary().then` callback.

  /** `scopeEntry.content[currentLocale] || scopeEntry.content["en"]`; `None` is `undefined`. */
  function ChosenContent(content: Record<string>, locale: string): (r: Option<string>)
    ensures Get(content, locale).Some? && Get(content, locale).value != [] ==> r == Get(content, locale)
    ensures !(Get(content, locale).Some? && Get(content, locale).value != []) ==> r == Get(content, "en")
  {
    var own := Get(content, locale);
    if own.Some? && own.value != [] then own else Get(content, "en")
  }

  /** The text the callback parses: none when the dictionary, file or scope is missing or the chosen text is falsy. */
  function CallbackContent(dictionary: Option<Dictionary>, filePath: string, scopePath: string, locale: string): Option<string>
  {
    if dictionary.None? then None
    else
      match Get(dictionary.value.files, filePath)
      case None => None
      case Some(fileEntry) =>
        match Get(fileEntry.entries, scopePath)
        case None => None
        case Some(scopeEntry) =>
          var content := ChosenContent(scopeEntry.content, locale);
          if content.Some? && content.value != [] then content else None
  }

  /**
   * The callback parses the loader's translation for the locale, or else its
   * translation for "en": a non-empty text, or nothing.
   */
  lemma CallbackFallsBack(dictionary: Option<Dictionary>, filePath: string, scopePath: string, locale: string)
    ensures var t := Translation(dictionary, filePath, scopePath, locale);
            CallbackContent(dictionary, filePath, scopePath, locale)
            == if t.Some? then t else Translation(dictionary, filePath, scopePath, "en")
  {
  }

  /**
   * Once loaded, both components pick the same text: the React component's
   * translated content is the parse of exactly the text this one's callback
   * parses, and is null exactly when there is none.
   */
  lemma SameChoice(dictionary: Option<Dictionary>, filePath: string, scopePath: string, locale: string,
                   variables: Option<Record<string>>)
    ensures var c := CallbackContent(dictionary, filePath, scopePath, locale);
            TranslatedContent(dictionary, false, false, filePath, scopePath, locale, variables)
            == if c.Some? then ParseContentOf(c.value, variables) else Null
  {
    CallbackFallsBack(dictionary, filePath, scopePath, locale);
    TranslatedContentFallsBack(dictionary, filePath, scopePath, locale, variables);
  }

  // ---------------------------------------------------------------------------
  // `setLocale` and `getAvailableLocales`.

  /**
   * `setLocale(locale)`: in a browser the locale is saved under the storage key
   * and the page reloads; outside one nothing happens. The result is the
   * browser afterwards and whether the page reloads.
   */
  function SetLocale(window: Option<Window>, locale: string): (r: (Option<Window>, bool))
    ensures r.0.None? <==> window.None?
    ensures r.0.Some? ==> r.0.value.savedLocale == Some(locale) && r.0.value.urlLocale == window.value.urlLocale
    ensures r.1 <==> window.Some?
  {
    if window.None? then (None, false) else (Some(window.value.(savedLocale := Some(locale))), true)
  }

  /** After `setLocale` and the reload, a component without a `locale` prop reads the locale back, unless the URL names one. */
  lemma SetLocaleReadBack(window: Window, locale: string)
    requires locale != [] && !Truthy(window.urlLocale)
    ensures SetLocale(Some(window), locale).1
    ensures CurrentLocale(None, SetLocale(Some(window), locale).0) == locale
  {
  }

  /**
   * `getAvailableLocales` once the dictionary import has settled: ["en"]
   * without a dictionary, otherwise every locale key of every entry once, in
   * the order first seen.
   */
  method GetAvailableLocales(dictionary: Option<Dictionary>) returns (r: seq<string>)
    ensures dictionary.None? ==> r == ["en"]
    ensures dictionary.Some? ==> r == Dedup(FileLocales(dictionary.value.files))
  {
    if dictionary.None? {
      return ["en"];
    }
    r := CollectLocales(dictionary.value);
  }
}
