// What the runtime reads from the browser: the `locale` URL parameter and the
// locale saved under "algebras-auto-intl-locale" in local storage. Outside a
// browser (`typeof window === "undefined"`) there is no window at all.

module Browser {
  import opened Text

  /** The key the runtime stores the chosen locale under. */
  const StorageKey := "algebras-auto-intl-locale"

  /** `new URLSearchParams(location.search).get("locale")` and `localStorage.getItem(StorageKey)`; `None` is `null`. */
  datatype Window = Window(urlLocale: Option<string>, savedLocale: Option<string>)

  /** A string-or-null value is truthy when it is a non-empty string. */
  predicate Truthy(s: Option<string>)
  {
    s.Some? && s.value != []
  }
}
