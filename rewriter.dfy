// The build-time rewriter (src/compiler/ASTTransformer.ts): every JSX element
// with translatable text whose scope path is registered for the file becomes
// a self-closing <IntlComponent …/> that carries the original tag, the file,
// the scope path and the variables used inside it.
//
// Babel visits the tree in pre-order: an element is tested before its
// attributes and children. When the visitor replaces an element, Babel skips
// the old element's subtree and visits the replacement instead, which reaches
// the original attributes (they are kept, first) but no children (it has none).
// The import is ensured at the moment an element is rewritten; a declaration
// put in front of the body moves every statement down by one, and locations
// computed later in the scan see the moved positions.

module Rewriter {
  import opened Text
  import opened ScopePath
  import opened Jsx
  import opened IntlImport

  // ---------------------------------------------------------------------------
  // Variables: identifiers used as `{name}` anywhere below an element.

  /**
   * The names of bare-identifier expression containers below `n`, in the order a
   * pre-order traversal meets them (attributes before children); `n` itself is
   * included when it is such a container.
   */
  function Identifiers(n: Node): seq<string>
    decreases n, 1
  {
    match n
    case JSXElement(_, _, _, _) => AttributeIdentifiers(n, 0) + ChildIdentifiers(n, 0)
    case JSXFragment(_) => ChildIdentifiers(n, 0)
    case JSXExpressionContainer(e) => (if e.Identifier? then [e.name] else []) + Identifiers(e)
    case Expression(_) => EmbeddedIdentifiers(n, 0)
    case _ => []
  }

  function AttributeIdentifiers(owner: Node, j: nat): seq<string>
    requires owner.JSXElement? && j <= |owner.attributes|
    decreases owner, 0, |owner.attributes| - j
  {
    if j == |owner.attributes| then []
    else
      var here := match owner.attributes[j]
        case JSXAttribute(_, value) => if value.Some? then Identifiers(value.value) else []
        case JSXSpreadAttribute(argument) => Identifiers(argument);
      here + AttributeIdentifiers(owner, j + 1)
  }

  function ChildIdentifiers(owner: Node, k: nat): seq<string>
    requires (owner.JSXElement? || owner.JSXFragment?) && k <= |owner.children|
    decreases owner, 0, |owner.children| - k
  {
    if k == |owner.children| then [] else Identifiers(owner.children[k]) + ChildIdentifiers(owner, k + 1)
  }

  function EmbeddedIdentifiers(owner: Node, k: nat): seq<string>
    requires owner.Expression? && k <= |owner.embedded|
    decreases owner, 0, |owner.embedded| - k
  {
    if k == |owner.embedded| then []
    else Identifiers(owner.embedded[k].node) + EmbeddedIdentifiers(owner, k + 1)
  }

  /** The variables of an element (`extractVariables`): each identifier once, in first-seen order. */
  function VariableNames(element: Node): (names: seq<string>)
    requires element.JSXElement?
    ensures forall x :: x in names <==> x in Identifiers(element)
    ensures NoDuplicates(names)
  {
    Dedup(Identifiers(element))
  }

  /** `{ "a": a, "b": b }` for the names `a`, `b`. */
  function VariableObject(names: seq<string>): (ps: seq<Property>)
    ensures |ps| == |names|
    ensures forall i :: 0 <= i < |names| ==> ps[i] == Property(names[i], names[i])
  {
    if names == [] then [] else [Property(names[0], names[0])] + VariableObject(names[1..])
  }

  // ---------------------------------------------------------------------------
  // The replacement element.

  /** `/^[A-Z]/`: the tag names a component rather than an intrinsic element. */
  predicate StartsUpper(name: string)
  {
    |name| > 0 && 'A' <= name[0] <= 'Z'
  }

  /** `$as`: a component is passed as `{Name}`, an intrinsic tag as the string "name". */
  function AsAttribute(name: string): (a: Attribute)
    ensures a.JSXAttribute? && a.name == "$as"
    ensures StartsUpper(name) <==> a.value == Some(JSXExpressionContainer(Identifier(name)))
    ensures !StartsUpper(name) <==> a.value == Some(StringLiteral(name))
  {
    JSXAttribute("$as", Some(if StartsUpper(name) then JSXExpressionContainer(Identifier(name)) else StringLiteral(name)))
  }

  /** The attributes the rewriter appends after the original ones. */
  function SpecialAttributes(name: string, filePath: string, scopePath: string, variables: seq<Property>): seq<Attribute>
  {
    [AsAttribute(name), JSXAttribute("$filePath", Some(StringLiteral(filePath))),
     JSXAttribute("$scopePath", Some(StringLiteral(scopePath)))]
    + (if |variables| > 0 then [JSXAttribute("$variables", Some(JSXExpressionContainer(ObjectExpression(variables))))] else [])
  }

  /** The element `transformJSXElement` puts in place of a registered element. */
  function Replacement(attributes: seq<Attribute>, name: string, filePath: string, scopePath: string,
                       variables: seq<Property>): (r: Node)
    ensures r.JSXElement? && r.tag == JSXIdentifier("IntlComponent") && r.selfClosing && r.children == []
    ensures |r.attributes| == |attributes| + 3 + (if |variables| > 0 then 1 else 0)
    ensures r.attributes[..|attributes|] == attributes
    ensures r.attributes[|attributes|] == AsAttribute(name)
    ensures r.attributes[|attributes| + 1] == JSXAttribute("$filePath", Some(StringLiteral(filePath)))
    ensures r.attributes[|attributes| + 2] == JSXAttribute("$scopePath", Some(StringLiteral(scopePath)))
    ensures |variables| > 0 ==>
      r.attributes[|attributes| + 3] == JSXAttribute("$variables", Some(JSXExpressionContainer(ObjectExpression(variables))))
    ensures !HasTranslatableText(r.children)
  {
    JSXElement(JSXIdentifier("IntlComponent"), attributes + SpecialAttributes(name, filePath, scopePath, variables), [], true)
  }

  // ---------------------------------------------------------------------------
  // The scan.

  /**
   * `AsWritten` follows the source; `Intended` computes every location on the
   * unmodified body and adds the import only when no declaration has it (see
   * the findings in the README).
   */
  datatype Mode = AsWritten | Intended

  datatype Context = Context(mode: Mode, filePath: string, scopes: Option<Record<bool>>, statement: nat)

  /** What the scan changes as it goes: the body (imports), how far statements moved, `hasTransformations`. */
  datatype Scan = Scan(body: seq<Statement>, shift: nat, changed: bool)

  /** The import step the mode uses. */
  function EnsureImport(mode: Mode, body: seq<Statement>): (r: seq<Statement>)
    ensures |r| == |body| + Prepended(body)
  {
    match mode
    case AsWritten => WithIntlImport(body)
    case Intended => WithIntlImportOnce(body)
  }

  /** The location the scan sees for `route` inside the current statement. */
  function LocationAt(ctx: Context, scan: Scan, route: Location): Location
  {
    var index := if ctx.mode == AsWritten then ctx.statement + scan.shift else ctx.statement;
    StatementLocation(index) + route
  }

  /** The scan after an import was ensured: the body changed and statements may have moved. */
  function AfterImport(ctx: Context, scan: Scan): (r: Scan)
    ensures |r.body| + scan.shift == |scan.body| + r.shift
    ensures r.changed == scan.changed
  {
    Scan(EnsureImport(ctx.mode, scan.body), scan.shift + Prepended(scan.body), scan.changed)
  }

  /** The visitor's two tests, for an element at `loc`: it has translatable text and its scope path is registered. */
  predicate Passes(n: Node, loc: Location, scopes: Option<Record<bool>>)
  {
    n.JSXElement? && HasTranslatableText(n.children) && Registered(scopes, GenerateScopePath(PathLocation(loc)))
  }

  /**
   * What the traversal can make of a node: a node of the same kind, with as many
   * children and the JSX of an expression at the same routes; a node it does not
   * look into stays as it is.
   */
  predicate SameKind(a: Node, b: Node)
  {
    match a
    case JSXElement(_, _, _, _) => b.JSXElement?
    case JSXFragment(children) => b.JSXFragment? && |b.children| == |children|
    case JSXExpressionContainer(_) => b.JSXExpressionContainer?
    case Expression(embedded) =>
      b.Expression? && |b.embedded| == |embedded| && forall k :: 0 <= k < |embedded| ==> b.embedded[k].route == embedded[k].route
    case _ => b == a
  }

  /** An attribute after the traversal: the same kind, the same name, and a value exactly when it had one. */
  predicate SameAttribute(a: Attribute, b: Attribute)
  {
    match a
    case JSXAttribute(name, value) => b.JSXAttribute? && b.name == name && (b.value.Some? <==> value.Some?)
    case JSXSpreadAttribute(_) => b.JSXSpreadAttribute?
  }

  /**
   * `r` is the `IntlComponent` element `transformJSXElement` makes of `n` for the
   * given scope path: self-closing and childless, with `n`'s attributes (as the
   * traversal left them) first, then `$as`, `$filePath`, `$scopePath` and, when
   * `n` uses variables, `$variables`.
   */
  predicate RewrittenAs(n: Node, r: Node, filePath: string, scopePath: string)
  {
    n.JSXElement? && GetJSXElementName(n.tag).Some? &&
    var special := SpecialAttributes(GetJSXElementName(n.tag).value, filePath, scopePath, VariableObject(VariableNames(n)));
    r.JSXElement? && r.tag == JSXIdentifier("IntlComponent") && r.selfClosing && r.children == []
    && |r.attributes| == |n.attributes| + |special|
    && (forall i :: 0 <= i < |n.attributes| ==> SameAttribute(n.attributes[i], r.attributes[i]))
    && r.attributes[|n.attributes|..] == special
  }

  /** `r` is the element `n` left in place: the same tag, and attributes and children of the same kinds. */
  predicate KeptAs(n: Node, r: Node)
  {
    n.JSXElement? && r.JSXElement? && r.tag == n.tag && r.selfClosing == n.selfClosing
    && |r.attributes| == |n.attributes| && (forall i :: 0 <= i < |n.attributes| ==> SameAttribute(n.attributes[i], r.attributes[i]))
    && |r.children| == |n.children| && (forall i :: 0 <= i < |n.children| ==> SameKind(n.children[i], r.children[i]))
  }

  /** Whether the scan state only grew: the flag stays set and the body keeps its alignment. */
  predicate Follows(scan: Scan, scan': Scan)
  {
    (scan.changed ==> scan'.changed) && |scan'.body| + scan.shift == |scan.body| + scan'.shift
  }

  /** The JSXElement visitor at one node, then the traversal below it. */
  function Visit(n: Node, route: Location, ctx: Context, scan: Scan): (r: (Node, Scan))
    ensures Follows(scan, r.1)
    ensures SameKind(n, r.0)
    ensures Passes(n, LocationAt(ctx, scan, route), ctx.scopes) ==> r.1.changed
    ensures Passes(n, LocationAt(ctx, scan, route), ctx.scopes) && GetJSXElementName(n.tag).Some?
            ==> RewrittenAs(n, r.0, ctx.filePath, GenerateScopePath(PathLocation(LocationAt(ctx, scan, route))))
    ensures n.JSXElement? && !(Passes(n, LocationAt(ctx, scan, route), ctx.scopes) && GetJSXElementName(n.tag).Some?)
            ==> KeptAs(n, r.0)
    decreases n, 2
  {
    match n
    case JSXElement(tag, _, children, _) =>
      if !HasTranslatableText(children) then VisitInside(n, route, ctx, scan)
      else
        var scopePath := GenerateScopePath(PathLocation(LocationAt(ctx, scan, route)));
        if !Registered(ctx.scopes, scopePath) then VisitInside(n, route, ctx, scan)
        else
          var flagged := scan.(changed := true);
          var name := GetJSXElementName(tag);
          if name.None? then VisitInside(n, route, ctx, flagged)
          else
            var variables := VariableObject(VariableNames(n));
            var (attributes, scan') := VisitAttributes(n, 0, route, ctx, AfterImport(ctx, flagged));
            var special := SpecialAttributes(name.value, ctx.filePath, scopePath, variables);
            assert (attributes + special)[|attributes|..] == special;
            (Replacement(attributes, name.value, ctx.filePath, scopePath, variables), scan')
    case JSXFragment(_) =>
      var (children, scan') := VisitChildren(n, 0, route, ctx, scan);
      (JSXFragment(children), scan')
    case JSXExpressionContainer(e) =>
      var (e', scan') := Visit(e, route + [Field("expression")], ctx, scan);
      (JSXExpressionContainer(e'), scan')
    case Expression(_) =>
      var (embedded, scan') := VisitEmbedded(n, 0, route, ctx, scan);
      (Expression(embedded), scan')
    case _ => (n, scan)
  }

  /** An element the visitor left in place: its attributes, then its children. */
  function VisitInside(n: Node, route: Location, ctx: Context, scan: Scan): (r: (Node, Scan))
    requires n.JSXElement?
    ensures Follows(scan, r.1)
    ensures KeptAs(n, r.0)
    decreases n, 1
  {
    var (attributes, scan1) := VisitAttributes(n, 0, route, ctx, scan);
    var (children, scan2) := VisitChildren(n, 0, route, ctx, scan1);
    (n.(attributes := attributes, children := children), scan2)
  }

  function VisitAttributes(owner: Node, j: nat, route: Location, ctx: Context, scan: Scan): (r: (seq<Attribute>, Scan))
    requires owner.JSXElement? && j <= |owner.attributes|
    ensures Follows(scan, r.1)
    ensures |r.0| == |owner.attributes| - j
    ensures forall i :: 0 <= i < |r.0| ==> SameAttribute(owner.attributes[j + i], r.0[i])
    decreases owner, 0, |owner.attributes| - j
  {
    if j == |owner.attributes| then ([], scan)
    else
      var here := route + [Field("openingElement"), Item("attributes", j)];
      var (a, scan1) := match owner.attributes[j]
        case JSXAttribute(name, value) =>
          if value.None? then (owner.attributes[j], scan)
          else
            var (v, s) := Visit(value.value, here + [Field("value")], ctx, scan);
            (JSXAttribute(name, Some(v)), s)
        case JSXSpreadAttribute(argument) =>
          var (v, s) := Visit(argument, here + [Field("argument")], ctx, scan);
          (JSXSpreadAttribute(v), s);
      var (rest, scan2) := VisitAttributes(owner, j + 1, route, ctx, scan1);
      ([a] + rest, scan2)
  }

  function VisitChildren(owner: Node, k: nat, route: Location, ctx: Context, scan: Scan): (r: (seq<Node>, Scan))
    requires (owner.JSXElement? || owner.JSXFragment?) && k <= |owner.children|
    ensures Follows(scan, r.1)
    ensures |r.0| == |owner.children| - k
    ensures forall i :: 0 <= i < |r.0| ==> SameKind(owner.children[k + i], r.0[i])
    decreases owner, 0, |owner.children| - k
  {
    if k == |owner.children| then ([], scan)
    else
      var (c, scan1) := Visit(owner.children[k], route + [Item("children", k)], ctx, scan);
      var (rest, scan2) := VisitChildren(owner, k + 1, route, ctx, scan1);
      ([c] + rest, scan2)
  }

  function VisitEmbedded(owner: Node, k: nat, route: Location, ctx: Context, scan: Scan): (r: (seq<Embedded>, Scan))
    requires owner.Expression? && k <= |owner.embedded|
    ensures Follows(scan, r.1)
    ensures |r.0| == |owner.embedded| - k
    ensures forall i :: 0 <= i < |r.0| ==> r.0[i].route == owner.embedded[k + i].route
    decreases owner, 0, |owner.embedded| - k
  {
    if k == |owner.embedded| then ([], scan)
    else
      var e := owner.embedded[k];
      var (node, scan1) := Visit(e.node, route + e.route, ctx, scan);
      var (rest, scan2) := VisitEmbedded(owner, k + 1, route, ctx, scan1);
      ([Embedded(e.route, node)] + rest, scan2)
  }

  /** The JSX embedded in one statement, with routes relative to the statement. */
  function VisitStatement(embedded: seq<Embedded>, ctx: Context, scan: Scan): (r: (seq<Embedded>, Scan))
    ensures Follows(scan, r.1)
    ensures |r.0| == |embedded|
    ensures forall i :: 0 <= i < |r.0| ==> r.0[i].route == embedded[i].route
  {
    if embedded == [] then ([], scan)
    else
      var (node, scan1) := Visit(embedded[0].node, embedded[0].route, ctx, scan);
      var (rest, scan2) := VisitStatement(embedded[1..], ctx, scan1);
      ([Embedded(embedded[0].route, node)] + rest, scan2)
  }

  /**
   * The statements of the parsed body from position `i` on; the scan's body holds
   * statement `i` at position `i + shift`.
   */
  function ScanBody(original: seq<Statement>, i: nat, mode: Mode, filePath: string, scopes: Option<Record<bool>>,
                    scan: Scan): (r: Scan)
    requires i <= |original| && |scan.body| == |original| + scan.shift
    ensures Follows(scan, r)
    decreases |original| - i
  {
    if i == |original| then scan
    else
      match original[i]
      case ImportDeclaration(_, _) => ScanBody(original, i + 1, mode, filePath, scopes, scan)
      case Code(embedded) =>
        var (embedded', scan1) := VisitStatement(embedded, Context(mode, filePath, scopes, i), scan);
        var scan2 := scan1.(body := scan1.body[i + scan1.shift := Code(embedded')]);
        ScanBody(original, i + 1, mode, filePath, scopes, scan2)
  }

  /** `transformCode` in either mode; `parsed` is the parser's verdict on `code`. */
  function TransformWith(mode: Mode, code: string, parsed: Option<Program>, filePath: string, files: Record<FileEntry>): (r: Output)
    ensures parsed.None? ==> r == Unchanged(code)
    ensures Get(files, filePath).None? || Get(files, filePath) == Some(NullEntry) ==> r == Unchanged(code)
  {
    var fileData := Get(files, filePath);
    if parsed.None? || fileData.None? || fileData.value.NullEntry? then Unchanged(code)
    else
      var body := parsed.value.body;
      var final := ScanBody(body, 0, mode, filePath, fileData.value.scopes, Scan(body, 0, false));
      if !final.changed then Unchanged(code) else Generated(Program(final.body))
  }

  /** The rewriter as the source writes it. */
  function TransformCode(code: string, parsed: Option<Program>, filePath: string, files: Record<FileEntry>): (r: Output)
    ensures parsed.None? ==> r == Unchanged(code)
    ensures Get(files, filePath).None? || Get(files, filePath) == Some(NullEntry) ==> r == Unchanged(code)
  {
    TransformWith(AsWritten, code, parsed, filePath, files)
  }
}
