// The React runtime component (src/client/IntlComponent.tsx): it looks up the
// translation of its scope, substitutes `{key}` variables, splits the result
// into text and `<element:N>T</element:N>` fragments, renders each fragment
// as a small element, and shows a placeholder while loading or when nothing
// was found.

module IntlComponent {
  import opened Text
  import opened Markup
  import opened Substitution
  import opened DictionaryLoader
  import opened ContentBuilder
  import opened Browser

  /** A node of the array `parseContent` returns. */
  datatype Part =
    | TextPart(text: string)
      /** `<tag key={key}>content</tag>`; a `br` is rendered without content. */
    | ElementPart(tag: string, key: string, content: Option<string>)

  /** What `parseContent` returns: `null`, a string, or an array of nodes. */
  datatype Rendered = Null | Str(text: string) | Parts(parts: seq<Part>)

  // ---------------------------------------------------------------------------
  // Fragments.

  /** `toLowerCase` on one character; the names the pattern accepts are ASCII word characters. */
  function LowerChar(c: char): char
  {
    if 'A' <= c <= 'Z' then (c as int + 32) as char else c
  }

  function Lower(s: string): (r: string)
    ensures |r| == |s| && forall i :: 0 <= i < |s| ==> r[i] == LowerChar(s[i])
  {
    if s == [] then [] else [LowerChar(s[0])] + Lower(s[1..])
  }

  /** Lowering twice is lowering once. */
  lemma LowerTwice(s: string)
    ensures Lower(Lower(s)) == Lower(s)
  {
  }

  /** The tags the switch on the lowered name renders. */
  const RenderedTags: set<string> := {"br", "code", "strong", "em", "span"}

  /** The tag a fragment is rendered with: its lowered name when the switch knows it, otherwise `span`. */
  function RenderTag(name: string): (tag: string)
    ensures tag in RenderedTags
  {
    var lowered := Lower(name);
    if lowered == "br" then "br"
    else if lowered == "code" then "code"
    else if lowered == "strong" then "strong"
    else if lowered == "em" then "em"
    else "span"
  }

  /** Tag names are matched without regard to case: a name and its lowered form render alike. */
  lemma RenderTagIgnoresCase(name: string)
    ensures RenderTag(Lower(name)) == RenderTag(name)
    ensures Lower(name) in RenderedTags ==> RenderTag(name) == Lower(name)
    ensures Lower(name) !in RenderedTags ==> RenderTag(name) == "span"
  {
    var lowered := Lower(name);
    LowerTwice(name);
    assert RenderTag(lowered) == RenderTag(name);
    if lowered in RenderedTags {
      assert lowered == "br" || lowered == "code" || lowered == "strong" || lowered == "em" || lowered == "span";
    }
  }

  /** The key of the `k`-th fragment, `element-${k}`. */
  function Key(k: nat): string
  {
    "element-" + NatToString(k)
  }

  /** Different fragments get different keys. */
  lemma KeyInjective(j: nat, k: nat)
    requires Key(j) == Key(k)
    ensures j == k
  {
    assert NatToString(j) == Key(j)[8..];
    assert NatToString(k) == Key(k)[8..];
    NatToStringRoundTrip(j);
    NatToStringRoundTrip(k);
  }

  /** The node for a fragment with groups `name` and `content`. */
  function ElementOf(name: string, content: string, key: string): (p: Part)
    ensures p.ElementPart? && p.key == key && p.tag == RenderTag(name)
    ensures p.content.None? <==> p.tag == "br"
    ensures p.content.Some? ==> p.content.value == content
  {
    var tag := RenderTag(name);
    ElementPart(tag, key, if tag == "br" then None else Some(content))
  }

  /** How a node is built for the `k`-th fragment found, with groups `name` and `content`. */
  type NodeBuilder = (string, string, nat) -> Part

  /** The nodes for pieces: a text node per text, and a node built by `make` per fragment, numbered from `k` on. */
  function NodesOf(make: NodeBuilder, ps: seq<Piece>, k: nat): (parts: seq<Part>)
    ensures |parts| == |ps|
  {
    if ps == [] then []
    else
      match ps[0]
      case Plain(t) => [TextPart(t)] + NodesOf(make, ps[1..], k)
      case Tagged(name, content) => [make(name, content, k)] + NodesOf(make, ps[1..], k + 1)
  }

  /** The element node of the `k`-th fragment, keyed `element-${k}`. */
  function Fragment(name: string, content: string, k: nat): Part
  {
    ElementOf(name, content, Key(k))
  }

  /** The nodes `parseContent` builds for pieces, the fragments numbered from `k` on. */
  function PartsOf(ps: seq<Piece>, k: nat): (parts: seq<Part>)
    ensures |parts| == |ps|
  {
    NodesOf(Fragment, ps, k)
  }

  /** The text and fragments of substituted content, as the pattern splits it. */
  function ContentPieces(processed: string): seq<Piece>
  {
    PatternAnchored();
    Pieces(MatchPrefix, processed)
  }

  /** What `parseContent(content, variables)` returns. */
  function ParseContentOf(content: string, variables: Option<Record<string>>): Rendered
  {
    if content == [] then Null
    else
      var processed := Substituted(content, variables);
      var parts := PartsOf(ContentPieces(processed), 0);
      if parts == [] then Str(processed) else Parts(parts)
  }

  /** The nodes of a fragment followed by further pieces. */
  lemma NodesOfTagged(make: NodeBuilder, name: string, content: string, rest: seq<Piece>, k: nat)
    ensures NodesOf(make, [Tagged(name, content)] + rest, k) == [make(name, content, k)] + NodesOf(make, rest, k + 1)
  {
    assert ([Tagged(name, content)] + rest)[1..] == rest;
  }

  /** The nodes of a text before a fragment, the fragment, and the pieces after it. */
  lemma NodesAround(make: NodeBuilder, ps: seq<Piece>, t: string, name: string, content: string, rest: seq<Piece>, k: nat)
    requires ps == TextPiece(t) + ([Tagged(name, content)] + rest)
    ensures NodesOf(make, ps, k) == (if t == [] then [] else [TextPart(t)]) + ([make(name, content, k)] + NodesOf(make, rest, k + 1))
  {
    NodesOfTagged(make, name, content, rest, k);
    if t != [] {
      assert ps[0] == Plain(t);
      assert ps[1..] == [Tagged(name, content)] + rest;
    } else {
      assert ps == [Tagged(name, content)] + rest;
    }
  }

  /** The nodes of a trailing text. */
  lemma NodesOfText(make: NodeBuilder, t: string, k: nat)
    ensures NodesOf(make, TextPiece(t), k) == if t == [] then [] else [TextPart(t)]
  {
  }

  lemma AppendParts(a: seq<Part>, b: seq<Part>, c: seq<Part>, d: seq<Part>)
    ensures a + b + c + d == a + (b + (c + d))
  {
  }

  /**
   * The state of the `exec` loop at search position `i` with `k` fragments
   * seen: the nodes built so far followed by the nodes of the pieces from `i`
   * on are the nodes of the whole string.
   */
  ghost predicate SplitState(at: Matcher, make: NodeBuilder, s: string, parts: seq<Part>, i: nat, k: nat)
    requires Anchored(at) && i <= |s|
  {
    parts + NodesOf(make, PiecesFrom(at, s, i), k) == NodesOf(make, Pieces(at, s), 0)
  }

  /** One round of the `exec` loop: the match's text and element join the nodes so far. */
  lemma ParseStep(at: Matcher, make: NodeBuilder, s: string, i: nat, k: nat, parts: seq<Part>, textParts: seq<Part>, found: Match)
    requires Anchored(at) && i <= |s| && FindFrom(at, s, i) == Some(found)
    requires SplitState(at, make, s, parts, i, k)
    requires textParts == if found.offset > i then [TextPart(s[i..found.offset])] else []
    ensures SplitState(at, make, s, parts + textParts + [make(found.name, found.content, k)], found.offset + found.length, k + 1)
  {
    var rest := PiecesFrom(at, s, found.offset + found.length);
    PiecesFromSome(at, s, i);
    NodesAround(make, PiecesFrom(at, s, i), s[i..found.offset], found.name, found.content, rest, k);
    AppendParts(parts, textParts, [make(found.name, found.content, k)], NodesOf(make, rest, k + 1));
  }

  /** The end of the `exec` loop: the text after the last match, when there is any, completes the nodes. */
  lemma ParseEnd(at: Matcher, make: NodeBuilder, s: string, i: nat, k: nat, parts: seq<Part>, tail: seq<Part>)
    requires Anchored(at) && i <= |s| && FindFrom(at, s, i).None?
    requires SplitState(at, make, s, parts, i, k)
    requires tail == if i < |s| then [TextPart(s[i..])] else []
    ensures parts + tail == NodesOf(make, Pieces(at, s), 0)
  {
    NodesOfText(make, s[i..], k);
  }

  /**
   * `parseContent`: the variables are substituted, then `exec` is called until
   * it finds nothing more; each match adds the text before it, when there is
   * any, and its element; the text after the last match comes last. With no
   * node at all the substituted string itself is returned.
   */
  method ParseContent(content: string, variables: Option<Record<string>>) returns (r: Rendered)
    ensures r == ParseContentOf(content, variables)
  {
    if content == [] {
      return Null;
    }
    var processed := Substitute(content, variables);
    PatternAnchored();
    var parts := SplitFragments(MatchPrefix, Fragment, processed);
    r := if |parts| == 0 then Str(processed) else Parts(parts);
  }

  /**
   * The `exec` loop of `parseContent` over the substituted content, written
   * for any anchored matcher and any way of building the element nodes.
   */
  method SplitFragments(at: Matcher, make: NodeBuilder, processed: string) returns (parts: seq<Part>)
    requires Anchored(at)
    ensures parts == NodesOf(make, Pieces(at, processed), 0)
  {
    parts := [];
    var lastIndex: nat := 0;
    var keyCounter: nat := 0;
    while FindFrom(at, processed, lastIndex).Some?
      invariant lastIndex <= |processed| && SplitState(at, make, processed, parts, lastIndex, keyCounter)
      decreases |processed| - lastIndex
    {
      var found := FindFrom(at, processed, lastIndex).value;
      var textParts: seq<Part> := [];
      if found.offset > lastIndex {
        var textPart := processed[lastIndex..found.offset];
        if textPart != [] {
          textParts := [TextPart(textPart)];
        }
      }
      ParseStep(at, make, processed, lastIndex, keyCounter, parts, textParts, found);
      parts := parts + textParts + [make(found.name, found.content, keyCounter)];
      keyCounter := keyCounter + 1;
      lastIndex := found.offset + found.length;
    }
    var tail: seq<Part> := [];
    if lastIndex < |processed| {
      var remainingText := processed[lastIndex..];
      if remainingText != [] {
        tail := [TextPart(remainingText)];
      }
    }
    ParseEnd(at, make, processed, lastIndex, keyCounter, parts, tail);
    parts := parts + tail;
  }

  // ---------------------------------------------------------------------------
  // What the result looks like.

  /** The keys of the element nodes, in order. */
  function KeysOf(parts: seq<Part>): seq<string>
  {
    if parts == [] then [] else (if parts[0].ElementPart? then [parts[0].key] else []) + KeysOf(parts[1..])
  }

  /** With a builder that keys the `j`-th fragment `key(j)`, the keys are `key(k)`, `key(k+1)`, … in the order the fragments come. */
  lemma {:induction false} NodeKeysInOrder(make: NodeBuilder, key: nat -> string, ps: seq<Piece>, k: nat)
    requires forall name, content, j :: make(name, content, j).ElementPart? && make(name, content, j).key == key(j)
    ensures |KeysOf(NodesOf(make, ps, k))| == |TaggedOf(ps)|
    ensures forall i :: 0 <= i < |KeysOf(NodesOf(make, ps, k))| ==> KeysOf(NodesOf(make, ps, k))[i] == key(k + i)
  {
    if ps != [] {
      var parts := NodesOf(make, ps, k);
      var k' := if ps[0].Tagged? then k + 1 else k;
      assert parts[1..] == NodesOf(make, ps[1..], k');
      NodeKeysInOrder(make, key, ps[1..], k');
      var head := if parts[0].ElementPart? then [parts[0].key] else [];
      var tail := KeysOf(parts[1..]);
      assert KeysOf(parts) == head + tail;
      forall i | 0 <= i < |head + tail| ensures (head + tail)[i] == key(k + i) {
        if i >= |head| {
          assert (head + tail)[i] == tail[i - |head|];
        }
      }
    }
  }

  /** The fragments are keyed `element-k`, `element-k+1`, … in the order they were found. */
  lemma KeysInOrder(ps: seq<Piece>, k: nat)
    ensures |KeysOf(PartsOf(ps, k))| == |TaggedOf(ps)|
    ensures forall i :: 0 <= i < |KeysOf(PartsOf(ps, k))| ==> KeysOf(PartsOf(ps, k))[i] == Key(k + i)
  {
    NodeKeysInOrder(Fragment, Key, ps, k);
  }

  /** No two nodes of a result share a key. */
  lemma KeysDistinct(content: string, variables: Option<Record<string>>)
    requires ParseContentOf(content, variables).Parts?
    ensures NoDuplicates(KeysOf(ParseContentOf(content, variables).parts))
  {
    PatternAnchored();
    var ps := Pieces(MatchPrefix, Substituted(content, variables));
    KeysInOrder(ps, 0);
    var keys := KeysOf(PartsOf(ps, 0));
    forall i, j | 0 <= i < j < |keys| ensures keys[i] != keys[j] {
      if keys[i] == keys[j] {
        KeyInjective(i, j);
      }
    }
  }

  /** A string comes back only for content that substitution emptied; anything else gives nodes. */
  lemma ParseContentShape(content: string, variables: Option<Record<string>>)
    ensures content == [] <==> ParseContentOf(content, variables) == Null
    ensures ParseContentOf(content, variables).Str? ==> content != [] && ParseContentOf(content, variables).text == [] && Substituted(content, variables) == []
    ensures ParseContentOf(content, variables).Parts? <==> content != [] && Substituted(content, variables) != []
  {
    if content != [] {
      PatternAnchored();
      PatternRecognises();
      var processed := Substituted(content, variables);
      PiecesRoundTrip(MatchPrefix, processed);
      if processed == [] {
        assert Pieces(MatchPrefix, processed) == [];
      }
    }
  }

  /** Whether `exec` finds a fragment anywhere in `s`. */
  predicate HasFragment(s: string)
  {
    PatternAnchored();
    FindFrom(MatchPrefix, s, 0).Some?
  }

  /** Without any fragment, non-empty content comes back as a one-node array holding the substituted text. */
  lemma NoFragment(content: string, variables: Option<Record<string>>)
    requires content != []
    requires Substituted(content, variables) != []
    requires !HasFragment(Substituted(content, variables))
    ensures ParseContentOf(content, variables) == Parts([TextPart(Substituted(content, variables))])
  {
  }

  /**
   * Built content read back at runtime: when the children's pieces are well
   * formed, the nodes the component renders for the content `buildContent`
   * produced are those of the children's pieces, adjacent texts joined.
   */
  lemma RendersBuiltContent(children: seq<Jsx.Node>)
    requires WellFormed(ChildPieces(children)) && BuildContent(children) != []
    ensures ParseContentOf(BuildContent(children), None) == Parts(PartsOf(Merge(ChildPieces(children)), 0))
  {
    ContentSplitsIntoChildren(children);
    ParseContentShape(BuildContent(children), None);
  }

  // ---------------------------------------------------------------------------
  // Locale, lookup and rendering.

  /** `propLocale || getCurrentLocale()`: the prop, the URL parameter, the saved locale, "en". */
  function CurrentLocale(propLocale: Option<string>, window: Option<Window>): (r: string)
    ensures r != []
    ensures r == "en" || Some(r) == propLocale
            || (window.Some? && (Some(r) == window.value.urlLocale || Some(r) == window.value.savedLocale))
    ensures Truthy(propLocale) ==> r == propLocale.value
    ensures !Truthy(propLocale) && window.Some? && Truthy(window.value.urlLocale) ==> r == window.value.urlLocale.value
    ensures !Truthy(propLocale) && window.Some? && !Truthy(window.value.urlLocale) && Truthy(window.value.savedLocale)
            ==> r == window.value.savedLocale.value
    ensures !Truthy(propLocale) && (window.None? || (!Truthy(window.value.urlLocale) && !Truthy(window.value.savedLocale)))
            ==> r == "en"
  {
    if Truthy(propLocale) then propLocale.value
    else if window.Some? && Truthy(window.value.urlLocale) then window.value.urlLocale.value
    else if window.Some? && Truthy(window.value.savedLocale) then window.value.savedLocale.value
    else "en"
  }

  /** The `translatedContent` memo. */
  function TranslatedContent(dictionary: Option<Dictionary>, loading: bool, error: bool, filePath: string,
                             scopePath: string, locale: string, variables: Option<Record<string>>): Rendered
  {
    if dictionary.None? || loading || error then Null
    else
      match Get(dictionary.value.files, filePath)
      case None => Null
      case Some(fileEntry) =>
        match Get(fileEntry.entries, scopePath)
        case None => Null
        case Some(scopeEntry) =>
          var content := Get(scopeEntry.content, locale);
          if content.None? || content.value == [] then
            var englishContent := Get(scopeEntry.content, "en");
            if englishContent.Some? && englishContent.value != [] then ParseContentOf(englishContent.value, variables)
            else Null
          else ParseContentOf(content.value, variables)
  }

  /**
   * The lookup is the loader's `getTranslation` for the locale, falling back to
   * its answer for "en": the component parses the first non-empty text of the two.
   */
  lemma TranslatedContentFallsBack(dictionary: Option<Dictionary>, filePath: string, scopePath: string, locale: string,
                                   variables: Option<Record<string>>)
    ensures var t := Translation(dictionary, filePath, scopePath, locale);
            var e := Translation(dictionary, filePath, scopePath, "en");
            TranslatedContent(dictionary, false, false, filePath, scopePath, locale, variables)
            == if t.Some? then ParseContentOf(t.value, variables)
               else if e.Some? then ParseContentOf(e.value, variables)
               else Null
  {
  }

  /** The child the component renders inside its `$as` element. */
  datatype Child = Message(text: string) | Content(rendered: Rendered)

  /** The truthiness of a `parseContent` result: a non-empty string or any array. */
  predicate Shows(r: Rendered)
  {
    r.Parts? || (r.Str? && r.text != [])
  }

  /** The render choice. */
  function RenderChild(loading: bool, error: bool, translated: Rendered): (c: Child)
    ensures c.Content? ==> c.rendered == translated && Shows(translated)
  {
    if loading then Message("Loading...")
    else if error || !Shows(translated) then Message("Translation not found")
    else Content(translated)
  }

  /** The child once the effect has stored the loaded dictionary: `error` is set when the load yielded nothing. */
  function ChildAfterLoad(dictionary: Option<Dictionary>, filePath: string, scopePath: string, locale: string,
                          variables: Option<Record<string>>): Child
  {
    var error := dictionary.None?;
    RenderChild(false, error, TranslatedContent(dictionary, false, error, filePath, scopePath, locale, variables))
  }

  /**
   * After loading, the component shows content exactly when the locale's text,
   * or else the English one, exists and substitution leaves something of it;
   * otherwise it shows "Translation not found".
   */
  lemma ChildAfterLoadShows(dictionary: Option<Dictionary>, filePath: string, scopePath: string, locale: string,
                            variables: Option<Record<string>>)
    ensures var t := Translation(dictionary, filePath, scopePath, locale);
            var e := Translation(dictionary, filePath, scopePath, "en");
            var chosen := if t.Some? then t else e;
            && (ChildAfterLoad(dictionary, filePath, scopePath, locale, variables).Content?
                <==> chosen.Some? && Substituted(chosen.value, variables) != [])
            && (!ChildAfterLoad(dictionary, filePath, scopePath, locale, variables).Content?
                ==> ChildAfterLoad(dictionary, filePath, scopePath, locale, variables) == Message("Translation not found"))
  {
    var t := Translation(dictionary, filePath, scopePath, locale);
    var e := Translation(dictionary, filePath, scopePath, "en");
    if dictionary.Some? {
      TranslatedContentFallsBack(dictionary, filePath, scopePath, locale, variables);
      if t.Some? {
        ParseContentShape(t.value, variables);
      } else if e.Some? {
        ParseContentShape(e.value, variables);
      }
    }
  }
}
