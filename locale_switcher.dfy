// The locale switcher (src/client/LocaleSwitcher.ts): a list of available
// locales and a current locale that only ever takes a listed value once set.
// The browser's URL parameter and saved locale are a `Window` value; the
// callback is modelled by whether one was given, and what `setLocale` does to
// the browser and the callback is returned as an `Effect`.

module LocaleSwitcher {
  import opened Text
  import opened Browser
  import opened DictionaryLoader

  /** The list used when no `availableLocales` option is given. */
  const DefaultLocales: seq<string> := ["en", "es", "fr", "de"]

  /** The constructor's options; `None` is an absent option. */
  datatype Options = Options(availableLocales: Option<array<string>>, defaultLocale: Option<string>, onLocaleChange: bool)

  /** What an accepted `setLocale` does besides setting the locale: the callback it calls, and whether it reloads the page. */
  datatype Effect = Rejected | Accepted(notified: Option<string>, reloaded: bool)

  /**
   * `getCurrentLocale(defaultLocale)` over the list `available`: the URL
   * locale when it is non-empty and listed, else the saved locale when it is
   * non-empty and listed, else the default, which defaults to "en" and is not
   * checked against the list.
   */
  function InitialLocale(available: seq<string>, defaultLocale: Option<string>, window: Option<Window>): (r: string)
    ensures r in available || r == LocaleOrDefault(defaultLocale)
    ensures window.Some? && Truthy(window.value.urlLocale) && window.value.urlLocale.value in available
            ==> r == window.value.urlLocale.value
    ensures window.Some? && !(Truthy(window.value.urlLocale) && window.value.urlLocale.value in available)
            && Truthy(window.value.savedLocale) && window.value.savedLocale.value in available
            ==> r == window.value.savedLocale.value
    ensures window.None? ==> r == LocaleOrDefault(defaultLocale)
  {
    if window.Some? && Truthy(window.value.urlLocale) && window.value.urlLocale.value in available then
      window.value.urlLocale.value
    else if window.Some? && Truthy(window.value.savedLocale) && window.value.savedLocale.value in available then
      window.value.savedLocale.value
    else
      LocaleOrDefault(defaultLocale)
  }

  /** A locale outside the list, from the URL or from storage, is never taken. */
  lemma InitialLocaleIgnoresUnlisted(available: seq<string>, defaultLocale: Option<string>, window: Window)
    requires !(Truthy(window.urlLocale) && window.urlLocale.value in available)
    requires !(Truthy(window.savedLocale) && window.savedLocale.value in available)
    ensures InitialLocale(available, defaultLocale, Some(window)) == LocaleOrDefault(defaultLocale)
  {
  }

  /** The browser after an accepted `setLocale`: the locale saved and put in the URL. */
  function Persisted(window: Window, locale: string): (w: Window)
    ensures w.urlLocale == Some(locale) && w.savedLocale == Some(locale)
  {
    window.(urlLocale := Some(locale), savedLocale := Some(locale))
  }

  /** A switcher created after `setLocale` (a reload, say) starts with the locale that was set. */
  lemma PersistedReadBack(available: seq<string>, defaultLocale: Option<string>, window: Window, locale: string)
    requires locale in available && locale != []
    ensures InitialLocale(available, defaultLocale, Some(Persisted(window, locale))) == locale
  {
  }

  class Switcher {
    /** The list of locales; the caller's array itself when one was passed. */
    const availableLocales: array<string>
    var currentLocale: string
    /** Whether an `onLocaleChange` callback was given. */
    const onLocaleChange: bool

    /** `new LocaleSwitcher(options)` in a browser showing `window` (`None` outside a browser). */
    constructor (options: Options, window: Option<Window>)
      ensures options.availableLocales.Some? ==> availableLocales == options.availableLocales.value
      ensures options.availableLocales.None? ==> fresh(availableLocales) && availableLocales[..] == DefaultLocales
      ensures currentLocale == InitialLocale(availableLocales[..], options.defaultLocale, window)
      ensures onLocaleChange == options.onLocaleChange
    {
      var available: array<string>;
      if options.availableLocales.Some? {
        available := options.availableLocales.value;
      } else {
        available := new string[4];
        available[0], available[1], available[2], available[3] := "en", "es", "fr", "de";
      }
      availableLocales := available;
      currentLocale := InitialLocale(available[..], options.defaultLocale, window);
      onLocaleChange := options.onLocaleChange;
    }

    /**
     * `setLocale(locale)`: a locale outside the list changes nothing; a listed
     * one becomes the current locale, is saved and put in the URL (in a
     * browser), and then the callback is called with it or, without a
     * callback, the page is reloaded (in a browser).
     */
    method SetLocale(locale: string, window: Option<Window>) returns (effect: Effect, window': Option<Window>)
      modifies this
      ensures locale !in availableLocales[..] ==> effect == Rejected && currentLocale == old(currentLocale) && window' == window
      ensures locale in availableLocales[..] ==> currentLocale == locale
      ensures locale in availableLocales[..] && window.Some? ==> window' == Some(Persisted(window.value, locale))
      ensures locale in availableLocales[..] && window.None? ==> window' == None
      ensures effect.Accepted? <==> locale in availableLocales[..]
      ensures effect.Accepted? ==> (effect.notified == Some(locale) <==> onLocaleChange)
                                   && (effect.notified.None? ==> !onLocaleChange)
                                   && (effect.reloaded <==> !onLocaleChange && window.Some?)
    {
      if locale !in availableLocales[..] {
        return Rejected, window;
      }
      currentLocale := locale;
      window' := window;
      if window.Some? {
        window' := Some(Persisted(window.value, locale));
      }
      if onLocaleChange {
        effect := Accepted(Some(locale), false);
      } else {
        effect := Accepted(None, window.Some?);
      }
    }

    /** `getLocale()`. */
    method GetLocale() returns (r: string)
      ensures r == currentLocale
    {
      r := currentLocale;
    }

    /** `getAvailableLocales()`: a new array with the list's elements, so that changing it leaves the list alone. */
    method GetAvailableLocales() returns (r: array<string>)
      ensures fresh(r) && r[..] == availableLocales[..]
    {
      r := new string[availableLocales.Length];
      var i := 0;
      while i < availableLocales.Length
        invariant 0 <= i <= availableLocales.Length
        invariant r[..i] == availableLocales[..i]
        modifies r
      {
        r[i] := availableLocales[i];
        i := i + 1;
      }
    }
  }

  /** Changing the copy `getAvailableLocales` returns leaves the switcher's list as it was. */
  method CopyIsIndependent(s: Switcher, locale: string) returns (copy: array<string>)
    requires s.availableLocales.Length > 0
    ensures copy.Length == s.availableLocales.Length && copy[0] == locale
    ensures s.availableLocales[..] == old(s.availableLocales[..])
  {
    copy := s.GetAvailableLocales();
    copy[0] := locale;
  }
}
