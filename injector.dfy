// The older text-node injector (src/transformer/Injector.ts): every non-blank
// JSX text whose closest enclosing element has a registered scope path is
// replaced by <Translated tKey="file::scope"/>, and the default import of
// `Translated` is ensured once after the traversal.
//
// The replacement is self-closing with a string-literal attribute, so it holds
// no text for the traversal to reach, and a replacement never moves anything:
// the closest element of every other text keeps its location.

module Injector {
  import opened Text
  import opened ScopePath
  import opened Jsx

  const TranslatedModule := "algebras-auto-intl/runtime/client/components/Translated"

  /** `<Translated tKey={scope} />`: self-closing, one attribute, no children. */
  function InjectTranslated(scope: string): (n: Node)
    ensures n.JSXElement? && n.tag == JSXIdentifier("Translated") && n.selfClosing && n.children == []
    ensures n.attributes == [JSXAttribute("tKey", Some(StringLiteral(scope)))]
  {
    JSXElement(JSXIdentifier("Translated"), [JSXAttribute("tKey", Some(StringLiteral(scope)))], [], true)
  }

  /** The `tKey` of a text in file `filePath` under scope `scopePath`. */
  function TKey(filePath: string, scopePath: string): string
  {
    filePath + "::" + scopePath
  }

  /** A key is read back at the file path's length: the file path, `::`, then the scope path, whatever characters either holds. */
  lemma TKeyParts(filePath: string, scopePath: string)
    ensures |filePath| + 2 <= |TKey(filePath, scopePath)|
    ensures TKey(filePath, scopePath)[..|filePath|] == filePath
    ensures TKey(filePath, scopePath)[|filePath|..|filePath| + 2] == "::"
    ensures TKey(filePath, scopePath)[|filePath| + 2..] == scopePath
  {
  }

  /** Two keys whose file paths hold no ':' have the same file path and the same scope exactly when they are equal. */
  lemma TKeyInjective(f1: string, s1: string, f2: string, s2: string)
    requires ':' !in f1 && ':' !in f2 && TKey(f1, s1) == TKey(f2, s2)
    ensures f1 == f2 && s1 == s2
  {
    if |f1| < |f2| {
      ShorterFileDiffers(f1, s1, f2, s2);
      assert false;
    } else if |f2| < |f1| {
      ShorterFileDiffers(f2, s2, f1, s1);
      assert false;
    }
    TKeyParts(f1, s1);
    TKeyParts(f2, s2);
  }

  /** Where the shorter file path ends, its key has ':' and the other key a character of its file path. */
  lemma ShorterFileDiffers(f1: string, s1: string, f2: string, s2: string)
    requires ':' !in f2 && |f1| < |f2|
    ensures TKey(f1, s1) != TKey(f2, s2)
  {
    assert TKey(f1, s1)[|f1|] == ':';
    assert TKey(f2, s2)[|f1|] == f2[|f1|];
  }

  // ---------------------------------------------------------------------------
  // The JSXText visitor over the tree.

  /** The file being transformed and its scopes (`fileScopes`, `None` when the entry has none). */
  datatype Site = Site(filePath: string, scopes: Option<Record<bool>>)

  /** The scope path of an element at `loc`. */
  function ScopeOf(loc: Location): string
  {
    GenerateScopePath(PathLocation(loc))
  }

  /** Whether the visitor replaces a text with value `value` whose closest element is at `ancestor`. */
  predicate Replaces(value: string, ancestor: Option<Location>, site: Site)
  {
    Trim(value) != [] && ancestor.Some? && Registered(site.scopes, ScopeOf(ancestor.value))
  }

  /** What becomes of a text with value `value` whose closest element is at `ancestor`. */
  function TextAfter(value: string, ancestor: Option<Location>, site: Site): Node
  {
    if Replaces(value, ancestor, site) then InjectTranslated(TKey(site.filePath, ScopeOf(ancestor.value))) else JSXText(value)
  }

  /**
   * The traversal below `n`, which sits at `loc` and whose closest enclosing
   * element is at `ancestor`: the new node and whether a text was replaced.
   */
  function Inject(n: Node, loc: Location, ancestor: Option<Location>, site: Site): (r: (Node, bool))
    ensures !r.1 ==> r.0 == n
    ensures n.JSXText? ==> (r.1 <==> Replaces(n.value, ancestor, site))
    ensures n.JSXText? && r.1 ==> r.0 == InjectTranslated(TKey(site.filePath, ScopeOf(ancestor.value)))
    ensures n.JSXElement? ==> r.0.JSXElement? && r.0.tag == n.tag && r.0.selfClosing == n.selfClosing
                              && |r.0.attributes| == |n.attributes| && |r.0.children| == |n.children|
    ensures n.JSXElement? ==> forall k :: 0 <= k < |n.children| && n.children[k].JSXText? ==>
                                r.0.children[k] == TextAfter(n.children[k].value, Some(loc), site)
    ensures n.JSXFragment? ==> r.0.JSXFragment? && |r.0.children| == |n.children|
    ensures n.JSXFragment? ==> forall k :: 0 <= k < |n.children| && n.children[k].JSXText? ==>
                                 r.0.children[k] == TextAfter(n.children[k].value, ancestor, site)
    decreases n
  {
    match n
    case JSXText(value) =>
      if Replaces(value, ancestor, site) then (InjectTranslated(TKey(site.filePath, ScopeOf(ancestor.value))), true)
      else (n, false)
    case JSXElement(_, attributes, children, _) =>
      var (attributes', c1) := InjectAttributes(attributes, loc, 0, Some(loc), site);
      var (children', c2) := InjectChildren(children, loc, 0, Some(loc), site);
      (n.(attributes := attributes', children := children'), c1 || c2)
    case JSXFragment(children) =>
      var (children', c) := InjectChildren(children, loc, 0, ancestor, site);
      (JSXFragment(children'), c)
    case JSXExpressionContainer(e) =>
      var (e', c) := Inject(e, loc + [Field("expression")], ancestor, site);
      (JSXExpressionContainer(e'), c)
    case Expression(embedded) =>
      var (embedded', c) := InjectEmbedded(embedded, loc, ancestor, site);
      (Expression(embedded'), c)
    case _ => (n, false)
  }

  /** The attributes of the element at `loc`, from the `j`-th on. */
  function InjectAttributes(attributes: seq<Attribute>, loc: Location, j: nat, ancestor: Option<Location>, site: Site)
    : (r: (seq<Attribute>, bool))
    ensures !r.1 ==> r.0 == attributes
    ensures |r.0| == |attributes|
    decreases attributes
  {
    if attributes == [] then ([], false)
    else
      var (a, c1) := InjectAttribute(attributes[0], loc + [Field("openingElement"), Item("attributes", j)], ancestor, site);
      var (rest, c2) := InjectAttributes(attributes[1..], loc, j + 1, ancestor, site);
      ([a] + rest, c1 || c2)
  }

  /** One attribute at `here`: its value, or the argument of a spread. */
  function InjectAttribute(a: Attribute, here: Location, ancestor: Option<Location>, site: Site): (r: (Attribute, bool))
    ensures !r.1 ==> r.0 == a
    decreases a
  {
    match a
    case JSXAttribute(name, value) =>
      if value.None? then (a, false)
      else
        var (v, c) := Inject(value.value, here + [Field("value")], ancestor, site);
        (JSXAttribute(name, Some(v)), c)
    case JSXSpreadAttribute(argument) =>
      var (v, c) := Inject(argument, here + [Field("argument")], ancestor, site);
      (JSXSpreadAttribute(v), c)
  }

  /** The children of the node at `loc`, from the `k`-th on. */
  function InjectChildren(children: seq<Node>, loc: Location, k: nat, ancestor: Option<Location>, site: Site)
    : (r: (seq<Node>, bool))
    ensures !r.1 ==> r.0 == children
    ensures |r.0| == |children|
    ensures forall i :: 0 <= i < |children| && children[i].JSXText? ==> r.0[i] == TextAfter(children[i].value, ancestor, site)
    decreases children
  {
    if children == [] then ([], false)
    else
      var (c, c1) := Inject(children[0], loc + [Item("children", k)], ancestor, site);
      var (rest, c2) := InjectChildren(children[1..], loc, k + 1, ancestor, site);
      ([c] + rest, c1 || c2)
  }

  /** The JSX embedded in other code below `loc`. */
  function InjectEmbedded(embedded: seq<Embedded>, loc: Location, ancestor: Option<Location>, site: Site)
    : (r: (seq<Embedded>, bool))
    ensures !r.1 ==> r.0 == embedded
    ensures |r.0| == |embedded|
    decreases embedded
  {
    if embedded == [] then ([], false)
    else
      var (node, c1) := Inject(embedded[0].node, loc + embedded[0].route, ancestor, site);
      var (rest, c2) := InjectEmbedded(embedded[1..], loc, ancestor, site);
      ([Embedded(embedded[0].route, node)] + rest, c1 || c2)
  }

  /** The statements of the program body from position `i` on. */
  function InjectBody(body: seq<Statement>, i: nat, site: Site): (r: (seq<Statement>, bool))
    ensures !r.1 ==> r.0 == body
    ensures |r.0| == |body|
    ensures forall t :: 0 <= t < |body| && body[t].ImportDeclaration? ==> r.0[t] == body[t]
    decreases body
  {
    if body == [] then ([], false)
    else
      var (st, c1) := match body[0]
        case ImportDeclaration(_, _) => (body[0], false)
        case Code(embedded) =>
          var (embedded', c) := InjectEmbedded(embedded, StatementLocation(i), None, site);
          (Code(embedded'), c);
      var (rest, c2) := InjectBody(body[1..], i + 1, site);
      ([st] + rest, c1 || c2)
  }

  // ---------------------------------------------------------------------------
  // Which files change: exactly those with a text the visitor replaces.

  /** A JSX text of the tree and the location of its closest enclosing element, `None` when there is none. */
  datatype TextSite = TextSite(value: string, element: Option<Location>)

  /** Every JSX text below `n` (at `loc`, closest element at `ancestor`), each with its closest enclosing element. */
  function TextsOf(n: Node, loc: Location, ancestor: Option<Location>): seq<TextSite>
    decreases n
  {
    match n
    case JSXText(value) => [TextSite(value, ancestor)]
    case JSXElement(_, attributes, children, _) =>
      AttributeTextsOf(attributes, loc, 0, Some(loc)) + ChildTextsOf(children, loc, 0, Some(loc))
    case JSXFragment(children) => ChildTextsOf(children, loc, 0, ancestor)
    case JSXExpressionContainer(e) => TextsOf(e, loc + [Field("expression")], ancestor)
    case Expression(embedded) => EmbeddedTextsOf(embedded, loc, ancestor)
    case _ => []
  }

  function AttributeTextsOf(attributes: seq<Attribute>, loc: Location, j: nat, ancestor: Option<Location>): seq<TextSite>
    decreases attributes
  {
    if attributes == [] then []
    else AttributeTextOf(attributes[0], loc + [Field("openingElement"), Item("attributes", j)], ancestor)
         + AttributeTextsOf(attributes[1..], loc, j + 1, ancestor)
  }

  function AttributeTextOf(a: Attribute, here: Location, ancestor: Option<Location>): seq<TextSite>
    decreases a
  {
    match a
    case JSXAttribute(_, value) => if value.None? then [] else TextsOf(value.value, here + [Field("value")], ancestor)
    case JSXSpreadAttribute(argument) => TextsOf(argument, here + [Field("argument")], ancestor)
  }

  function ChildTextsOf(children: seq<Node>, loc: Location, k: nat, ancestor: Option<Location>): seq<TextSite>
    decreases children
  {
    if children == [] then []
    else TextsOf(children[0], loc + [Item("children", k)], ancestor) + ChildTextsOf(children[1..], loc, k + 1, ancestor)
  }

  function EmbeddedTextsOf(embedded: seq<Embedded>, loc: Location, ancestor: Option<Location>): seq<TextSite>
    decreases embedded
  {
    if embedded == [] then []
    else TextsOf(embedded[0].node, loc + embedded[0].route, ancestor) + EmbeddedTextsOf(embedded[1..], loc, ancestor)
  }

  /** Every JSX text of the program body from statement `i` on; code outside JSX has no closest element. */
  function BodyTextsOf(body: seq<Statement>, i: nat): seq<TextSite>
    decreases body
  {
    if body == [] then []
    else (if body[0].Code? then EmbeddedTextsOf(body[0].embedded, StatementLocation(i), None) else [])
         + BodyTextsOf(body[1..], i + 1)
  }

  /** Some text of the list is non-blank and its closest element's scope path is registered. */
  predicate AnyReplaced(texts: seq<TextSite>, site: Site)
  {
    exists t :: 0 <= t < |texts| && Replaces(texts[t].value, texts[t].element, site)
  }

  lemma AnyReplacedAppend(a: seq<TextSite>, b: seq<TextSite>, site: Site)
    ensures AnyReplaced(a + b, site) <==> AnyReplaced(a, site) || AnyReplaced(b, site)
  {
    if AnyReplaced(a + b, site) {
      var t :| 0 <= t < |a + b| && Replaces((a + b)[t].value, (a + b)[t].element, site);
      if t >= |a| {
        assert (a + b)[t] == b[t - |a|];
      }
    }
    if AnyReplaced(a, site) {
      var t :| 0 <= t < |a| && Replaces(a[t].value, a[t].element, site);
      assert (a + b)[t] == a[t];
    }
    if AnyReplaced(b, site) {
      var t :| 0 <= t < |b| && Replaces(b[t].value, b[t].element, site);
      assert (a + b)[|a| + t] == b[t];
    }
  }

  /** The traversal below `n` replaces a text exactly when some text below `n` is one the visitor replaces. */
  lemma {:induction false} InjectExact(n: Node, loc: Location, ancestor: Option<Location>, site: Site)
    ensures Inject(n, loc, ancestor, site).1 <==> AnyReplaced(TextsOf(n, loc, ancestor), site)
    decreases n
  {
    match n
    case JSXText(value) =>
      assert TextsOf(n, loc, ancestor)[0] == TextSite(value, ancestor);
    case JSXElement(_, attributes, children, _) =>
      InjectAttributesExact(attributes, loc, 0, Some(loc), site);
      InjectChildrenExact(children, loc, 0, Some(loc), site);
      AnyReplacedAppend(AttributeTextsOf(attributes, loc, 0, Some(loc)), ChildTextsOf(children, loc, 0, Some(loc)), site);
    case JSXFragment(children) =>
      InjectChildrenExact(children, loc, 0, ancestor, site);
    case JSXExpressionContainer(e) =>
      InjectExact(e, loc + [Field("expression")], ancestor, site);
    case Expression(embedded) =>
      InjectEmbeddedExact(embedded, loc, ancestor, site);
    case _ =>
  }

  lemma {:induction false} InjectAttributesExact(attributes: seq<Attribute>, loc: Location, j: nat,
                                                 ancestor: Option<Location>, site: Site)
    ensures InjectAttributes(attributes, loc, j, ancestor, site).1 <==> AnyReplaced(AttributeTextsOf(attributes, loc, j, ancestor), site)
    decreases attributes
  {
    if attributes != [] {
      var here := loc + [Field("openingElement"), Item("attributes", j)];
      InjectAttributeExact(attributes[0], here, ancestor, site);
      InjectAttributesExact(attributes[1..], loc, j + 1, ancestor, site);
      AnyReplacedAppend(AttributeTextOf(attributes[0], here, ancestor), AttributeTextsOf(attributes[1..], loc, j + 1, ancestor), site);
    }
  }

  lemma {:induction false} InjectAttributeExact(a: Attribute, here: Location, ancestor: Option<Location>, site: Site)
    ensures InjectAttribute(a, here, ancestor, site).1 <==> AnyReplaced(AttributeTextOf(a, here, ancestor), site)
    decreases a
  {
    match a
    case JSXAttribute(_, value) =>
      if value.Some? {
        InjectExact(value.value, here + [Field("value")], ancestor, site);
      }
    case JSXSpreadAttribute(argument) =>
      InjectExact(argument, here + [Field("argument")], ancestor, site);
  }

  lemma {:induction false} InjectChildrenExact(children: seq<Node>, loc: Location, k: nat,
                                               ancestor: Option<Location>, site: Site)
    ensures InjectChildren(children, loc, k, ancestor, site).1 <==> AnyReplaced(ChildTextsOf(children, loc, k, ancestor), site)
    decreases children
  {
    if children != [] {
      InjectExact(children[0], loc + [Item("children", k)], ancestor, site);
      InjectChildrenExact(children[1..], loc, k + 1, ancestor, site);
      AnyReplacedAppend(TextsOf(children[0], loc + [Item("children", k)], ancestor), ChildTextsOf(children[1..], loc, k + 1, ancestor), site);
    }
  }

  lemma {:induction false} InjectEmbeddedExact(embedded: seq<Embedded>, loc: Location, ancestor: Option<Location>, site: Site)
    ensures InjectEmbedded(embedded, loc, ancestor, site).1 <==> AnyReplaced(EmbeddedTextsOf(embedded, loc, ancestor), site)
    decreases embedded
  {
    if embedded != [] {
      InjectExact(embedded[0].node, loc + embedded[0].route, ancestor, site);
      InjectEmbeddedExact(embedded[1..], loc, ancestor, site);
      AnyReplacedAppend(TextsOf(embedded[0].node, loc + embedded[0].route, ancestor), EmbeddedTextsOf(embedded[1..], loc, ancestor), site);
    }
  }

  lemma {:induction false} InjectBodyExact(body: seq<Statement>, i: nat, site: Site)
    ensures InjectBody(body, i, site).1 <==> AnyReplaced(BodyTextsOf(body, i), site)
    decreases body
  {
    if body != [] {
      var first := if body[0].Code? then EmbeddedTextsOf(body[0].embedded, StatementLocation(i), None) else [];
      if body[0].Code? {
        InjectEmbeddedExact(body[0].embedded, StatementLocation(i), None, site);
      }
      InjectBodyExact(body[1..], i + 1, site);
      AnyReplacedAppend(first, BodyTextsOf(body[1..], i + 1), site);
    }
  }

  /**
   * One round of the loop leaves the code unchanged exactly when no non-blank
   * JSX text of the program has a closest element whose scope path is
   * registered for the file; otherwise the file is regenerated.
   */
  lemma InjectFileUnchangedExactly(code: string, program: Program, filePath: string, entry: Option<FileEntry>)
    ensures InjectFile(code, program, filePath, entry).Unchanged?
        <==> !AnyReplaced(BodyTextsOf(program.body, 0), Site(filePath, FileScopes(entry)))
    ensures !AnyReplaced(BodyTextsOf(program.body, 0), Site(filePath, FileScopes(entry)))
        ==> InjectFile(code, program, filePath, entry) == Unchanged(code)
  {
    InjectBodyExact(program.body, 0, Site(filePath, FileScopes(entry)));
  }

  // ---------------------------------------------------------------------------
  // A second traversal over the same locations finds nothing more to replace.

  /** The replacement holds no text: the traversal leaves it as it is. */
  lemma InjectTranslatedStays(scope: string, loc: Location, ancestor: Option<Location>, site: Site)
    ensures Inject(InjectTranslated(scope), loc, ancestor, site) == (InjectTranslated(scope), false)
  {
    var attributes := InjectTranslated(scope).attributes;
    var here := loc + [Field("openingElement"), Item("attributes", 0)];
    assert InjectAttribute(attributes[0], here, Some(loc), site) == (attributes[0], false);
    assert InjectAttributes(attributes[1..], loc, 1, Some(loc), site) == ([], false);
    assert InjectAttributes(attributes, loc, 0, Some(loc), site) == (attributes, false);
    assert InjectChildren([], loc, 0, Some(loc), site) == ([], false);
  }

  lemma {:induction false} InjectTwice(n: Node, loc: Location, ancestor: Option<Location>, site: Site)
    ensures var r := Inject(n, loc, ancestor, site); Inject(r.0, loc, ancestor, site) == (r.0, false)
    decreases n
  {
    match n
    case JSXText(value) =>
      if Replaces(value, ancestor, site) {
        InjectTranslatedStays(TKey(site.filePath, ScopeOf(ancestor.value)), loc, ancestor, site);
      }
    case JSXElement(_, attributes, children, _) =>
      InjectAttributesTwice(attributes, loc, 0, Some(loc), site);
      InjectChildrenTwice(children, loc, 0, Some(loc), site);
    case JSXFragment(children) =>
      InjectChildrenTwice(children, loc, 0, ancestor, site);
    case JSXExpressionContainer(e) =>
      InjectTwice(e, loc + [Field("expression")], ancestor, site);
    case Expression(embedded) =>
      InjectEmbeddedTwice(embedded, loc, ancestor, site);
    case _ =>
  }

  lemma {:induction false} InjectAttributesTwice(attributes: seq<Attribute>, loc: Location, j: nat,
                                                 ancestor: Option<Location>, site: Site)
    ensures var r := InjectAttributes(attributes, loc, j, ancestor, site);
            InjectAttributes(r.0, loc, j, ancestor, site) == (r.0, false)
    decreases attributes
  {
    if attributes != [] {
      var r := InjectAttributes(attributes, loc, j, ancestor, site);
      InjectAttributeTwice(attributes[0], loc + [Field("openingElement"), Item("attributes", j)], ancestor, site);
      InjectAttributesTwice(attributes[1..], loc, j + 1, ancestor, site);
      assert r.0[1..] == InjectAttributes(attributes[1..], loc, j + 1, ancestor, site).0;
    }
  }

  lemma {:induction false} InjectAttributeTwice(a: Attribute, here: Location, ancestor: Option<Location>, site: Site)
    ensures var r := InjectAttribute(a, here, ancestor, site); InjectAttribute(r.0, here, ancestor, site) == (r.0, false)
    decreases a
  {
    match a
    case JSXAttribute(_, value) =>
      if value.Some? {
        InjectTwice(value.value, here + [Field("value")], ancestor, site);
      }
    case JSXSpreadAttribute(argument) =>
      InjectTwice(argument, here + [Field("argument")], ancestor, site);
  }

  lemma {:induction false} InjectChildrenTwice(children: seq<Node>, loc: Location, k: nat,
                                               ancestor: Option<Location>, site: Site)
    ensures var r := InjectChildren(children, loc, k, ancestor, site);
            InjectChildren(r.0, loc, k, ancestor, site) == (r.0, false)
    decreases children
  {
    if children != [] {
      var r := InjectChildren(children, loc, k, ancestor, site);
      InjectTwice(children[0], loc + [Item("children", k)], ancestor, site);
      InjectChildrenTwice(children[1..], loc, k + 1, ancestor, site);
      assert r.0[1..] == InjectChildren(children[1..], loc, k + 1, ancestor, site).0;
    }
  }

  lemma {:induction false} InjectEmbeddedTwice(embedded: seq<Embedded>, loc: Location, ancestor: Option<Location>, site: Site)
    ensures var r := InjectEmbedded(embedded, loc, ancestor, site);
            InjectEmbedded(r.0, loc, ancestor, site) == (r.0, false)
    decreases embedded
  {
    if embedded != [] {
      var r := InjectEmbedded(embedded, loc, ancestor, site);
      InjectTwice(embedded[0].node, loc + embedded[0].route, ancestor, site);
      InjectEmbeddedTwice(embedded[1..], loc, ancestor, site);
      assert r.0[1..] == InjectEmbedded(embedded[1..], loc, ancestor, site).0;
    }
  }

  /** Traversing the body the injection produced replaces nothing more. */
  lemma {:induction false} InjectBodyTwice(body: seq<Statement>, i: nat, site: Site)
    ensures var r := InjectBody(body, i, site); InjectBody(r.0, i, site) == (r.0, false)
    decreases body
  {
    if body != [] {
      var r := InjectBody(body, i, site);
      if body[0].Code? {
        InjectEmbeddedTwice(body[0].embedded, StatementLocation(i), None, site);
      }
      InjectBodyTwice(body[1..], i + 1, site);
      assert r.0[1..] == InjectBody(body[1..], i + 1, site).0;
    }
  }

  // ---------------------------------------------------------------------------
  // The import.

  /** A default specifier binding `Translated`. */
  predicate DefaultTranslated(sp: Specifier)
  {
    sp.ImportDefaultSpecifier? && sp.local == "Translated"
  }

  /** An import from the `Translated` module with such a specifier. */
  predicate ImportsTranslated(st: Statement)
  {
    st.ImportDeclaration? && st.source == TranslatedModule
    && exists k :: 0 <= k < |st.specifiers| && DefaultTranslated(st.specifiers[k])
  }

  predicate HasTranslatedImport(body: seq<Statement>)
  {
    exists i :: 0 <= i < |body| && ImportsTranslated(body[i])
  }

  /** `import Translated from "…/Translated"`. */
  const TranslatedImport := ImportDeclaration([ImportDefaultSpecifier("Translated")], TranslatedModule)

  /** The body after `ensureImportTranslated`. */
  function WithTranslatedImport(body: seq<Statement>): (r: seq<Statement>)
    ensures HasTranslatedImport(r)
    ensures HasTranslatedImport(body) ==> r == body
    ensures !HasTranslatedImport(body) ==> r == [TranslatedImport] + body
  {
    if HasTranslatedImport(body) then body
    else
      assert DefaultTranslated(TranslatedImport.specifiers[0]);
      assert ImportsTranslated(([TranslatedImport] + body)[0]);
      [TranslatedImport] + body
  }

  /** A second call changes nothing. */
  lemma WithTranslatedImportIdempotent(body: seq<Statement>)
    ensures WithTranslatedImport(WithTranslatedImport(body)) == WithTranslatedImport(body)
  {
  }

  /** `ensureImportTranslated`: a scan of the import declarations that stops at the first match, then the `unshift`. */
  method EnsureImportTranslated(body: seq<Statement>) returns (r: seq<Statement>)
    ensures r == WithTranslatedImport(body)
  {
    var hasImport := false;
    var i := 0;
    while i < |body|
      invariant 0 <= i <= |body|
      invariant hasImport <==> exists k :: 0 <= k < i && ImportsTranslated(body[k])
    {
      var st := body[i];
      if st.ImportDeclaration? && st.source == TranslatedModule {
        var j := 0;
        var found := false;
        while j < |st.specifiers| && !found
          invariant 0 <= j <= |st.specifiers|
          invariant found <==> exists k :: 0 <= k < j && DefaultTranslated(st.specifiers[k])
        {
          found := DefaultTranslated(st.specifiers[j]);
          j := j + 1;
        }
        if found {
          hasImport := true;
          break;
        }
      }
      i := i + 1;
    }
    r := body;
    if !hasImport {
      r := [TranslatedImport] + body;
    }
  }

  // ---------------------------------------------------------------------------
  // `transformProject`.

  /** `options.sourceMap.files[filePath]?.scopes || {}` for a key of the map. */
  function FileScopes(entry: Option<FileEntry>): Option<Record<bool>>
  {
    if entry.Some? && entry.value.FileData? then entry.value.scopes else None
  }

  /** What one round of the loop produces for `filePath` once `code` has been parsed into `program`. */
  function InjectFile(code: string, program: Program, filePath: string, entry: Option<FileEntry>): (r: Output)
    ensures r.Generated? ==> HasTranslatedImport(r.program.body)
  {
    var (body, changed) := InjectBody(program.body, 0, Site(filePath, FileScopes(entry)));
    if !changed then Unchanged(code) else Generated(Program(WithTranslatedImport(body)))
  }

  /**
   * What `transformProject(code, options)` returns; `None` is `undefined`. The
   * parser's verdict on `code` is the same in every round, so the first round
   * either returns or every round fails.
   */
  function ProjectOutput(code: string, parsed: Option<Program>, files: Option<Record<FileEntry>>): (r: Option<Output>)
    ensures r.None? <==> parsed.None? || files.None? || files.value == []
    ensures r.Some? ==> r.value == InjectFile(code, parsed.value, files.value[0].0, Get(files.value, files.value[0].0))
  {
    if parsed.None? || files.None? || files.value == [] then None
    else
      var filePath := Keys(files.value)[0];
      Some(InjectFile(code, parsed.value, filePath, Get(files.value, filePath)))
  }

  /** The loop over the file keys, as written: a failed parse goes on to the next key, anything else returns. */
  method TransformProject(code: string, parsed: Option<Program>, files: Option<Record<FileEntry>>) returns (r: Option<Output>)
    ensures r == ProjectOutput(code, parsed, files)
  {
    var keys := if files.Some? then Keys(files.value) else [];
    var i := 0;
    while i < |keys|
      invariant 0 <= i <= |keys| && (i > 0 ==> parsed.None?)
    {
      if parsed.None? {
        i := i + 1;
        continue;
      }
      var filePath := keys[i];
      var site := Site(filePath, FileScopes(Get(files.value, filePath)));
      var (body, changed) := InjectBody(parsed.value.body, 0, site);
      if !changed {
        return Some(Unchanged(code));
      }
      var withImport := EnsureImportTranslated(body);
      return Some(Generated(Program(withImport)));
    }
    return None;
  }

  /** Nothing replaced: the code comes back as it was, without an import. */
  lemma UnchangedWithoutReplacement(code: string, program: Program, filePath: string, entry: Option<FileEntry>)
    requires !InjectBody(program.body, 0, Site(filePath, FileScopes(entry))).1
    ensures InjectFile(code, program, filePath, entry) == Unchanged(code)
  {
  }

  /** A file without scopes (absent, falsy, or without a `scopes` object) is never changed. */
  lemma NoScopesNoChange(code: string, program: Program, filePath: string, entry: Option<FileEntry>)
    requires FileScopes(entry).None?
    ensures InjectFile(code, program, filePath, entry) == Unchanged(code)
  {
    NoneRegisteredBody(program.body, 0, Site(filePath, None));
  }

  lemma {:induction false} NoneRegistered(n: Node, loc: Location, ancestor: Option<Location>, site: Site)
    requires site.scopes.None?
    ensures !Inject(n, loc, ancestor, site).1
    decreases n
  {
    match n
    case JSXElement(_, attributes, children, _) =>
      NoneRegisteredAttributes(attributes, loc, 0, Some(loc), site);
      NoneRegisteredChildren(children, loc, 0, Some(loc), site);
    case JSXFragment(children) =>
      NoneRegisteredChildren(children, loc, 0, ancestor, site);
    case JSXExpressionContainer(e) =>
      NoneRegistered(e, loc + [Field("expression")], ancestor, site);
    case Expression(embedded) =>
      NoneRegisteredEmbedded(embedded, loc, ancestor, site);
    case _ =>
  }

  lemma {:induction false} NoneRegisteredAttributes(attributes: seq<Attribute>, loc: Location, j: nat,
                                                    ancestor: Option<Location>, site: Site)
    requires site.scopes.None?
    ensures !InjectAttributes(attributes, loc, j, ancestor, site).1
    decreases attributes
  {
    if attributes != [] {
      NoneRegisteredAttribute(attributes[0], loc + [Field("openingElement"), Item("attributes", j)], ancestor, site);
      NoneRegisteredAttributes(attributes[1..], loc, j + 1, ancestor, site);
    }
  }

  lemma {:induction false} NoneRegisteredAttribute(a: Attribute, here: Location, ancestor: Option<Location>, site: Site)
    requires site.scopes.None?
    ensures !InjectAttribute(a, here, ancestor, site).1
    decreases a
  {
    match a
    case JSXAttribute(_, value) =>
      if value.Some? {
        NoneRegistered(value.value, here + [Field("value")], ancestor, site);
      }
    case JSXSpreadAttribute(argument) =>
      NoneRegistered(argument, here + [Field("argument")], ancestor, site);
  }

  lemma {:induction false} NoneRegisteredChildren(children: seq<Node>, loc: Location, k: nat,
                                                  ancestor: Option<Location>, site: Site)
    requires site.scopes.None?
    ensures !InjectChildren(children, loc, k, ancestor, site).1
    decreases children
  {
    if children != [] {
      NoneRegistered(children[0], loc + [Item("children", k)], ancestor, site);
      NoneRegisteredChildren(children[1..], loc, k + 1, ancestor, site);
    }
  }

  lemma {:induction false} NoneRegisteredEmbedded(embedded: seq<Embedded>, loc: Location, ancestor: Option<Location>, site: Site)
    requires site.scopes.None?
    ensures !InjectEmbedded(embedded, loc, ancestor, site).1
    decreases embedded
  {
    if embedded != [] {
      NoneRegistered(embedded[0].node, loc + embedded[0].route, ancestor, site);
      NoneRegisteredEmbedded(embedded[1..], loc, ancestor, site);
    }
  }

  lemma {:induction false} NoneRegisteredBody(body: seq<Statement>, i: nat, site: Site)
    requires site.scopes.None?
    ensures !InjectBody(body, i, site).1
    decreases body
  {
    if body != [] {
      if body[0].Code? {
        NoneRegisteredEmbedded(body[0].embedded, StatementLocation(i), None, site);
      }
      NoneRegisteredBody(body[1..], i + 1, site);
    }
  }

  /**
   * Injecting into the statements the injector produced, at the positions they
   * had, replaces nothing. When the file already imported `Translated`, nothing
   * is put in front, so running the injector on the program it generated
   * leaves that code as it is.
   */
  lemma InjectFileSettles(code: string, program: Program, filePath: string, entry: Option<FileEntry>, code': string)
    ensures var (body, _) := InjectBody(program.body, 0, Site(filePath, FileScopes(entry)));
            InjectFile(code, Program(body), filePath, entry) == Unchanged(code)
    ensures var r := InjectFile(code, program, filePath, entry);
            r.Generated? && HasTranslatedImport(program.body) ==> InjectFile(code', r.program, filePath, entry) == Unchanged(code')
  {
    var site := Site(filePath, FileScopes(entry));
    InjectBodyTwice(program.body, 0, site);
    var (body, changed) := InjectBody(program.body, 0, site);
    if changed && HasTranslatedImport(program.body) {
      var i :| 0 <= i < |program.body| && ImportsTranslated(program.body[i]);
      assert ImportsTranslated(body[i]);
      assert WithTranslatedImport(body) == body;
    }
  }
}
