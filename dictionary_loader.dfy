// The translation dictionary the build writes and the runtime reads,
// files[filePath].entries[scopePath].content[locale], and the loader that
// memoises it and answers queries about it (src/integration/DictionaryLoader.ts).
// The runtime components (src/client/IntlComponent.tsx and .ts) read the same
// shape and share the locale collection defined here.

module DictionaryLoader {
  import opened Text

  datatype Entry = Entry(content: Record<string>, hash: string)

  datatype FileTranslations = FileTranslations(entries: Record<Entry>)

  datatype Dictionary = Dictionary(version: int, files: Record<FileTranslations>)

  /** A query's `locale` argument; JavaScript's default parameter makes a missing one "en". */
  function LocaleOrDefault(locale: Option<string>): (r: string)
    ensures locale.Some? ==> r == locale.value
    ensures locale.None? ==> r == "en"
  {
    if locale.Some? then locale.value else "en"
  }

  // ---------------------------------------------------------------------------
  // Lookups.

  /** The text stored for `locale` in an entry, when it is there and not empty. */
  function EntryText(entry: Entry, locale: string): (r: Option<string>)
    ensures r.Some? <==> Get(entry.content, locale).Some? && Get(entry.content, locale).value != ""
    ensures r.Some? ==> r == Get(entry.content, locale)
  {
    var t := Get(entry.content, locale);
    if t.Some? && t.value != "" then t else None
  }

  /**
   * `getTranslation` once the dictionary is loaded: nothing when the dictionary,
   * the file, the scope or a non-empty text for the locale is missing; there is
   * no fallback to another locale.
   */
  function Translation(dict: Option<Dictionary>, filePath: string, scopePath: string, locale: string): (r: Option<string>)
    ensures r.Some? ==> r.value != ""
    ensures r.Some? <==> dict.Some? && Get(dict.value.files, filePath).Some?
                         && Get(Get(dict.value.files, filePath).value.entries, scopePath).Some?
                         && EntryText(Get(Get(dict.value.files, filePath).value.entries, scopePath).value, locale).Some?
  {
    if dict.None? then None
    else
      match Get(dict.value.files, filePath)
      case None => None
      case Some(file) =>
        match Get(file.entries, scopePath)
        case None => None
        case Some(entry) => EntryText(entry, locale)
  }

  /** The scope paths of `entries` with a non-empty text for `locale`, each with that text, in object order. */
  function CollectFileTranslations(entries: Record<Entry>, locale: string): Record<string>
    decreases |entries|
  {
    if entries == [] then []
    else
      var last := entries[|entries| - 1];
      var prev := CollectFileTranslations(entries[..|entries| - 1], locale);
      var t := EntryText(last.1, locale);
      if t.Some? then Put(prev, last.0, t.value) else prev
  }

  /** `getFileTranslations` once the dictionary is loaded: `{}` without a dictionary or file. */
  function FileTranslationsOf(dict: Option<Dictionary>, filePath: string, locale: string): Record<string>
  {
    if dict.None? then []
    else
      match Get(dict.value.files, filePath)
      case None => []
      case Some(file) => CollectFileTranslations(file.entries, locale)
  }

  /** Reading a record with one more entry at the end. */
  lemma {:induction false} GetAppend<V>(r: Record<V>, key: string, value: V, k: string)
    ensures Get(r + [(key, value)], k) == if Get(r, k).Some? then Get(r, k) else if k == key then Some(value) else None
  {
    if r != [] {
      assert (r + [(key, value)])[1..] == r[1..] + [(key, value)];
      GetAppend(r[1..], key, value, k);
    }
  }

  /**
   * Every scope path of a file reads back from the collected translations as
   * `getTranslation` would answer for it: the collected keys are exactly the
   * scope paths with a non-empty text, each mapped to that text. The scope
   * paths of an object are distinct.
   */
  lemma {:induction false} CollectFileTranslationsGet(entries: Record<Entry>, locale: string, k: string)
    requires NoDuplicates(Keys(entries))
    ensures Get(CollectFileTranslations(entries, locale), k)
         == if Get(entries, k).None? then None else EntryText(Get(entries, k).value, locale)
    decreases |entries|
  {
    if entries != [] {
      var n := |entries| - 1;
      var prefix := entries[..n];
      var last := entries[n];
      assert entries == prefix + [last];
      assert NoDuplicates(Keys(prefix)) by {
        forall i, j | 0 <= i < j < |prefix| ensures Keys(prefix)[i] != Keys(prefix)[j] {
          assert Keys(prefix)[i] == Keys(entries)[i] && Keys(prefix)[j] == Keys(entries)[j];
        }
      }
      CollectFileTranslationsGet(prefix, locale, k);
      GetAppend(prefix, last.0, last.1, k);
      var t := EntryText(last.1, locale);
      if t.Some? {
        PutGet(CollectFileTranslations(prefix, locale), last.0, t.value, k);
      }
      if k == last.0 {
        assert last.0 !in Keys(prefix) by {
          forall i | 0 <= i < |prefix| ensures Keys(prefix)[i] != last.0 {
            assert Keys(prefix)[i] == Keys(entries)[i] && last.0 == Keys(entries)[n];
          }
        }
      }
    }
  }

  /** `getFileTranslations` and `getTranslation` agree on every scope path of a file. */
  lemma FileTranslationsAgree(dict: Option<Dictionary>, filePath: string, locale: string, scopePath: string)
    requires dict.Some? && Get(dict.value.files, filePath).Some?
    requires NoDuplicates(Keys(Get(dict.value.files, filePath).value.entries))
    ensures Get(FileTranslationsOf(dict, filePath, locale), scopePath) == Translation(dict, filePath, scopePath, locale)
  {
    CollectFileTranslationsGet(Get(dict.value.files, filePath).value.entries, locale, scopePath);
  }

  /** The loop of `getFileTranslations`: a property write for each entry with a non-empty text. */
  method FileTranslationsLoop(entries: Record<Entry>, locale: string) returns (translations: Record<string>)
    ensures translations == CollectFileTranslations(entries, locale)
  {
    translations := [];
    var i := 0;
    while i < |entries|
      invariant 0 <= i <= |entries|
      invariant translations == CollectFileTranslations(entries[..i], locale)
    {
      var t := Get(entries[i].1.content, locale);
      assert entries[..i + 1][..i] == entries[..i];
      if t.Some? && t.value != "" {
        translations := Put(translations, entries[i].0, t.value);
      }
      i := i + 1;
    }
    assert entries[..i] == entries;
  }

  // ---------------------------------------------------------------------------
  // Locales.

  /** The locale keys of every entry, in object order. */
  function EntryLocales(entries: Record<Entry>): seq<string>
  {
    if entries == [] then [] else Keys(entries[0].1.content) + EntryLocales(entries[1..])
  }

  /** The locale keys of every entry of every file, in object order. */
  function FileLocales(files: Record<FileTranslations>): seq<string>
  {
    if files == [] then [] else EntryLocales(files[0].1.entries) + FileLocales(files[1..])
  }

  /** `x` is a locale key of the content of some entry of some file. */
  ghost predicate LocaleOfSomeEntry(files: Record<FileTranslations>, x: string)
  {
    exists i, j :: 0 <= i < |files| && 0 <= j < |files[i].1.entries| && x in Keys(files[i].1.entries[j].1.content)
  }

  /** The keys `EntryLocales` lists are those of the entries' contents. */
  lemma {:induction false} EntryLocalesHas(entries: Record<Entry>, x: string)
    ensures x in EntryLocales(entries) <==> exists j :: 0 <= j < |entries| && x in Keys(entries[j].1.content)
  {
    if entries != [] {
      EntryLocalesHas(entries[1..], x);
      if x in EntryLocales(entries[1..]) {
        var j :| 0 <= j < |entries[1..]| && x in Keys(entries[1..][j].1.content);
        assert entries[j + 1] == entries[1..][j];
      }
      if exists j :: 0 <= j < |entries| && x in Keys(entries[j].1.content) {
        var j :| 0 <= j < |entries| && x in Keys(entries[j].1.content);
        if j > 0 {
          assert entries[1..][j - 1] == entries[j];
        }
      }
    }
  }

  /** The keys `FileLocales` lists are the locale keys of the entries of all files. */
  lemma {:induction false} FileLocalesHas(files: Record<FileTranslations>, x: string)
    ensures x in FileLocales(files) <==> LocaleOfSomeEntry(files, x)
  {
    if files != [] {
      FileLocalesHas(files[1..], x);
      EntryLocalesHas(files[0].1.entries, x);
      if LocaleOfSomeEntry(files[1..], x) {
        var i, j :| 0 <= i < |files[1..]| && 0 <= j < |files[1..][i].1.entries| && x in Keys(files[1..][i].1.entries[j].1.content);
        assert files[i + 1] == files[1..][i];
      }
      if LocaleOfSomeEntry(files, x) {
        var i, j :| 0 <= i < |files| && 0 <= j < |files[i].1.entries| && x in Keys(files[i].1.entries[j].1.content);
        if i > 0 {
          assert files[1..][i - 1] == files[i];
        }
      }
    }
  }

  /** Every locale key of every entry is reported, and each once. */
  lemma AvailableLocalesExactly(dict: Dictionary, x: string)
    ensures x in Dedup(FileLocales(dict.files)) <==> LocaleOfSomeEntry(dict.files, x)
    ensures NoDuplicates(Dedup(FileLocales(dict.files)))
  {
    FileLocalesHas(dict.files, x);
  }

  /** Adding a run of values to a `Set` and then another is adding their concatenation. */
  lemma {:induction false} DedupFromAppend(seen: seq<string>, xs: seq<string>, ys: seq<string>)
    requires NoDuplicates(seen)
    ensures DedupFrom(seen, xs + ys) == DedupFrom(DedupFrom(seen, xs), ys)
    decreases |xs|
  {
    if xs != [] {
      assert (xs + ys)[0] == xs[0] && (xs + ys)[1..] == xs[1..] + ys;
      if xs[0] in seen {
        DedupFromAppend(seen, xs[1..], ys);
      } else {
        DedupFromAppend(seen + [xs[0]], xs[1..], ys);
      }
    } else {
      assert xs + ys == ys;
    }
  }

  /** One `locales.add(l)` for each key, in order. */
  method AddAll(locales: seq<string>, keys: seq<string>) returns (r: seq<string>)
    requires NoDuplicates(locales)
    ensures r == DedupFrom(locales, keys)
  {
    r := locales;
    var j := 0;
    while j < |keys|
      invariant 0 <= j <= |keys| && NoDuplicates(r)
      invariant DedupFrom(r, keys[j..]) == DedupFrom(locales, keys)
    {
      assert keys[j..][0] == keys[j] && keys[j..][1..] == keys[j + 1..];
      if keys[j] !in r {
        r := r + [keys[j]];
      }
      j := j + 1;
    }
  }

  lemma EntryLocalesStep(entries: Record<Entry>, k: nat, rest: seq<string>)
    requires k < |entries|
    ensures EntryLocales(entries[k..]) + rest == Keys(entries[k].1.content) + (EntryLocales(entries[k + 1..]) + rest)
  {
    assert entries[k..][1..] == entries[k + 1..];
  }

  lemma FileLocalesStep(files: Record<FileTranslations>, i: nat)
    requires i < |files|
    ensures FileLocales(files[i..]) == EntryLocales(files[i].1.entries[0..]) + FileLocales(files[i + 1..])
  {
    assert files[i..][1..] == files[i + 1..];
    assert files[i].1.entries[0..] == files[i].1.entries;
  }

  /**
   * The nested loops of `getAvailableLocales`: every locale key of every entry
   * added to a `Set`, which keeps each key once, where it first appeared.
   */
  method CollectLocales(dict: Dictionary) returns (locales: seq<string>)
    ensures locales == Dedup(FileLocales(dict.files))
  {
    locales := [];
    var i := 0;
    assert dict.files[0..] == dict.files;
    while i < |dict.files|
      invariant 0 <= i <= |dict.files| && NoDuplicates(locales)
      invariant DedupFrom(locales, FileLocales(dict.files[i..])) == Dedup(FileLocales(dict.files))
    {
      var entries := dict.files[i].1.entries;
      FileLocalesStep(dict.files, i);
      var k := 0;
      while k < |entries|
        invariant 0 <= k <= |entries| && NoDuplicates(locales)
        invariant DedupFrom(locales, EntryLocales(entries[k..]) + FileLocales(dict.files[i + 1..]))
               == Dedup(FileLocales(dict.files))
      {
        var keys := Keys(entries[k].1.content);
        EntryLocalesStep(entries, k, FileLocales(dict.files[i + 1..]));
        DedupFromAppend(locales, keys, EntryLocales(entries[k + 1..]) + FileLocales(dict.files[i + 1..]));
        locales := AddAll(locales, keys);
        k := k + 1;
      }
      assert entries[k..] == [];
      assert [] + FileLocales(dict.files[i + 1..]) == FileLocales(dict.files[i + 1..]);
      i := i + 1;
    }
  }

  // ---------------------------------------------------------------------------
  // The loader.

  class Loader {
    /** The loaded dictionary, once a load yielded one. */
    var dictionary: Option<Dictionary>
    /** The settled result of the one load ever started, once it was started. */
    var loadPromise: Option<Option<Dictionary>>
    const dictionaryPath: string

    /** The dictionary is set exactly when the load yielded one, and then it is that result. */
    ghost predicate Valid()
      reads this
    {
      (loadPromise.None? ==> dictionary.None?) && (loadPromise.Some? ==> dictionary == loadPromise.value)
    }

    constructor(dictionaryPath: Option<string>)
      ensures Valid() && dictionary.None? && loadPromise.None?
      ensures this.dictionaryPath == if dictionaryPath.Some? then dictionaryPath.value else "./intl/dictionary.js"
    {
      dictionary := None;
      loadPromise := None;
      this.dictionaryPath := if dictionaryPath.Some? then dictionaryPath.value else "./intl/dictionary.js";
    }

    /**
     * `loadDictionary`; `loaded` is what importing `dictionaryPath` would yield,
     * `None` when the import fails. A stored dictionary is returned as it is; a
     * started load is not repeated, even when it yielded nothing.
     */
    method LoadDictionary(loaded: Option<Dictionary>) returns (r: Option<Dictionary>)
      requires Valid()
      modifies this
      ensures Valid() && loadPromise == Some(r)
      ensures old(dictionary).Some? ==> r == old(dictionary) && unchanged(this)
      ensures old(dictionary).None? && old(loadPromise).Some? ==> r == old(loadPromise).value && unchanged(this)
      ensures old(loadPromise).None? ==> r == loaded && dictionary == loaded
    {
      if dictionary.Some? {
        return dictionary;
      }
      if loadPromise.Some? {
        return loadPromise.value;
      }
      loadPromise := Some(loaded);
      dictionary := loaded;
      r := dictionary;
    }

    /** `getTranslation`, after loading. */
    method GetTranslation(loaded: Option<Dictionary>, filePath: string, scopePath: string, locale: Option<string>)
      returns (r: Option<string>)
      requires Valid()
      modifies this
      ensures Valid() && loadPromise.Some?
      ensures old(loadPromise).Some? ==> unchanged(this)
      ensures old(loadPromise).None? ==> loadPromise == Some(loaded)
      ensures r == Translation(loadPromise.value, filePath, scopePath, LocaleOrDefault(locale))
    {
      var dict := LoadDictionary(loaded);
      r := Translation(dict, filePath, scopePath, LocaleOrDefault(locale));
    }

    /** `hasTranslation`: whether `getTranslation` finds a text. */
    method HasTranslation(loaded: Option<Dictionary>, filePath: string, scopePath: string, locale: Option<string>)
      returns (r: bool)
      requires Valid()
      modifies this
      ensures Valid() && loadPromise.Some?
      ensures old(loadPromise).Some? ==> unchanged(this)
      ensures old(loadPromise).None? ==> loadPromise == Some(loaded)
      ensures r <==> Translation(loadPromise.value, filePath, scopePath, LocaleOrDefault(locale)).Some?
    {
      var t := GetTranslation(loaded, filePath, scopePath, locale);
      r := t.Some?;
    }

    /** `getAvailableLocales`: `[]` without a dictionary, else each locale key once. */
    method GetAvailableLocales(loaded: Option<Dictionary>) returns (r: seq<string>)
      requires Valid()
      modifies this
      ensures Valid() && loadPromise.Some?
      ensures old(loadPromise).Some? ==> unchanged(this)
      ensures old(loadPromise).None? ==> loadPromise == Some(loaded)
      ensures loadPromise.value.None? ==> r == []
      ensures loadPromise.value.Some? ==> r == Dedup(FileLocales(loadPromise.value.value.files))
    {
      var dict := LoadDictionary(loaded);
      if dict.None? {
        return [];
      }
      r := CollectLocales(dict.value);
    }

    /** `getFileTranslations`: `{}` without a dictionary or file, else the non-empty texts for the locale. */
    method GetFileTranslations(loaded: Option<Dictionary>, filePath: string, locale: Option<string>)
      returns (r: Record<string>)
      requires Valid()
      modifies this
      ensures Valid() && loadPromise.Some?
      ensures old(loadPromise).Some? ==> unchanged(this)
      ensures old(loadPromise).None? ==> loadPromise == Some(loaded)
      ensures r == FileTranslationsOf(loadPromise.value, filePath, LocaleOrDefault(locale))
    {
      var dict := LoadDictionary(loaded);
      if dict.None? {
        return [];
      }
      var file := Get(dict.value.files, filePath);
      if file.None? {
        return [];
      }
      r := FileTranslationsLoop(file.value.entries, LocaleOrDefault(locale));
    }
  }
}
