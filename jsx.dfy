// The part of Babel's syntax tree the compiler passes look at: JSX elements,
// text, expression containers, import declarations and the program body.
// Every other JavaScript construct is an `Expression` that only records
// where JSX is embedded inside it, so a traversal still reaches that JSX.

module Jsx {
  import opened Text
  import opened ScopePath

  /** The tag of an opening element: `div`, `Foo.Bar`, `svg:path`. */
  datatype ElementName =
    | JSXIdentifier(name: string)
    | JSXMemberExpression(object: ElementName, property: string)
    | JSXNamespacedName(namespace: string, local: string)

  datatype Node =
    | JSXElement(tag: ElementName, attributes: seq<Attribute>, children: seq<Node>, selfClosing: bool)
    | JSXFragment(children: seq<Node>)
    | JSXText(value: string)
    | JSXExpressionContainer(expression: Node)
    | Identifier(name: string)
    | StringLiteral(value: string)
    | ObjectExpression(properties: seq<Property>)
      /** Any other expression; the JSX inside it sits at the given routes below it. */
    | Expression(embedded: seq<Embedded>)

  /** `{ "name": name }`: a string-keyed property whose value is the identifier `value`. */
  datatype Property = Property(key: string, value: string)

  datatype Attribute =
    | JSXAttribute(name: string, value: Option<Node>)
    | JSXSpreadAttribute(argument: Node)

  datatype Embedded = Embedded(route: Location, node: Node)

  datatype ModuleExportName = ExportIdentifier(name: string) | ExportString(value: string)

  datatype Specifier =
    | ImportSpecifier(imported: ModuleExportName, local: string)
    | ImportDefaultSpecifier(local: string)
    | ImportNamespaceSpecifier(local: string)

  /** A top-level statement: an import, or code with JSX embedded at routes below the statement. */
  datatype Statement =
    | ImportDeclaration(specifiers: seq<Specifier>, source: string)
    | Code(embedded: seq<Embedded>)

  datatype Program = Program(body: seq<Statement>)

  /** The location of the statement at position `i` of the program body. */
  function StatementLocation(i: nat): (loc: Location)
    ensures ProgramLocation(loc)
  {
    [Field("program"), Item("body", i)]
  }

  /** What a JSX pass hands back: its input text, or text generated from the changed tree. */
  datatype Output = Unchanged(code: string) | Generated(program: Program)

  // ---------------------------------------------------------------------------
  // The scope map the extraction pass writes: files[path].scopes[scopePath].

  /** A file's entry; `NullEntry` is a falsy value stored under the file's key. */
  datatype FileEntry = NullEntry | FileData(scopes: Option<Record<bool>>)

  /** Scope values are recorded by their JavaScript truthiness. */
  predicate Registered(scopes: Option<Record<bool>>, scopePath: string)
  {
    scopes.Some? && Get(scopes.value, scopePath) == Some(true)
  }

  // ---------------------------------------------------------------------------
  // Small queries shared by the passes.

  /** Whether a text node counts: its trimmed value is non-empty. */
  predicate IsTranslatableText(n: Node)
  {
    n.JSXText? && Trim(n.value) != []
  }

  /** Some direct child is a text node with non-blank text (src/compiler/ASTTransformer.ts, hasTranslatableText). */
  function HasTranslatableText(children: seq<Node>): (r: bool)
    ensures r <==> exists k :: 0 <= k < |children| && children[k].JSXText? && !IsBlank(children[k].value)
  {
    if children == [] then false
    else
      TrimEmptyIffBlank(if children[0].JSXText? then children[0].value else []);
      IsTranslatableText(children[0]) || HasTranslatableText(children[1..])
  }

  /** The name the rewriter gives an element: an identifier, a member's property, or none. */
  function GetJSXElementName(tag: ElementName): (r: Option<string>)
    ensures r.None? <==> tag.JSXNamespacedName?
    ensures tag.JSXIdentifier? ==> r == Some(tag.name)
    ensures tag.JSXMemberExpression? ==> r == Some(tag.property)
  {
    match tag
    case JSXIdentifier(name) => Some(name)
    case JSXMemberExpression(_, property) => Some(property)
    case JSXNamespacedName(_, _) => None
  }
}
