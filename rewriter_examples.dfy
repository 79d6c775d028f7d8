// Two files worked through the rewriter: the import added for one element
// moves the scope path of an element in a later statement, and an element
// whose tag has no usable name still makes the file regenerate.

module RewriterExamples {
  import opened Text
  import opened ScopePath
  import opened Jsx
  import opened IntlImport
  import opened Rewriter

  /** The expression statement `<p>…</p>;`: the JSX sits under the statement's `expression` key. */
  const Route: Location := [Field("expression")]

  function Paragraph(text: string): Node
  {
    JSXElement(JSXIdentifier("p"), [], [JSXText(text)], false)
  }

  /** Two statements, each holding one paragraph with text, and no import yet. */
  const TwoStatements: seq<Statement> :=
    [Code([Embedded(Route, Paragraph("Hi"))]), Code([Embedded(Route, Paragraph("Bye"))])]

  const Key0 := "program/body0/expression"
  const Key1 := "program/body1/expression"

  /** The extraction pass registered both paragraphs. */
  const BothRegistered: Record<FileEntry> := [("page.tsx", FileData(Scopes))]

  const NewImport := ImportDeclaration([IntlSpecifier], IntlModule)

  lemma ScopeKeyAt(i: nat)
    requires i < 10
    ensures GenerateScopePath(PathLocation(StatementLocation(i) + Route)) == "program/body" + [DigitChar(i)] + "/expression"
  {
    StatementScopeKey(i);
    assert NatToString(i) == [DigitChar(i)];
  }

  /** The scope path of the JSX held by an expression statement. */
  lemma StatementScopeKey(i: nat)
    ensures GenerateScopePath(PathLocation(StatementLocation(i) + Route)) == "program/body" + NatToString(i) + "/expression"
  {
    var loc := StatementLocation(i) + Route;
    assert loc == [Field("program"), Item("body", i), Field("expression")];
    assert PlainKeys(loc) by {
      assert PlainKey("program") && PlainKey("body") && PlainKey("expression");
    }
    GenerateScopePathOfLocation(loc);
    var middle := [Item("body", i), Field("expression")];
    assert RenderWith(middle[1..], '/', false) == "expression";
    assert RenderWith(middle, '/', false) == "body" + NatToString(i) + "/" + "expression";
    assert loc[1..] == middle;
    assert ScopeKey(loc) == "program" + "/" + ("body" + NatToString(i) + "/" + "expression");
    KeyText(NatToString(i));
  }

  lemma KeyText(d: string)
    ensures "program" + "/" + ("body" + d + "/" + "expression") == "program/body" + d + "/expression"
  {
  }

  /** A statement holding one piece of JSX is scanned by visiting that piece. */
  lemma VisitSingle(e: Embedded, ctx: Context, scan: Scan)
    ensures VisitStatement([e], ctx, scan)
         == ([Embedded(e.route, Visit(e.node, e.route, ctx, scan).0)], Visit(e.node, e.route, ctx, scan).1)
  {
    var r := Visit(e.node, e.route, ctx, scan);
    assert [e][0] == e && [e][1..] == [];
    assert VisitStatement([], ctx, r.1) == ([], r.1);
    assert [Embedded(e.route, r.0)] + [] == [Embedded(e.route, r.0)];
  }

  lemma ParagraphHasText(text: string)
    requires |text| > 0 && !IsSpace(text[0])
    ensures HasTranslatableText(Paragraph(text).children)
  {
    assert Paragraph(text).children[0].JSXText?;
    assert !IsBlank(Paragraph(text).children[0].value);
  }

  lemma ParagraphHasNoVariables(text: string)
    ensures VariableNames(Paragraph(text)) == []
  {
    var p := Paragraph(text);
    assert ChildIdentifiers(p, 1) == [];
    assert ChildIdentifiers(p, 0) == [];
    assert AttributeIdentifiers(p, 0) == [];
    assert Identifiers(p) == [];
  }

  /** A paragraph whose scope path is registered becomes an IntlComponent with `$as="p"`. */
  lemma RewriteParagraph(text: string, ctx: Context, scan: Scan, key: string)
    requires |text| > 0 && !IsSpace(text[0])
    requires GenerateScopePath(PathLocation(LocationAt(ctx, scan, Route))) == key
    requires Registered(ctx.scopes, key)
    ensures Visit(Paragraph(text), Route, ctx, scan)
         == (Replacement([], "p", ctx.filePath, key, []), AfterImport(ctx, scan.(changed := true)))
  {
    ParagraphHasText(text);
    ParagraphHasNoVariables(text);
  }

  /** An element with no attributes and one text child is visited without change. */
  lemma InsideSingleText(n: Node, route: Location, ctx: Context, scan: Scan)
    requires n.JSXElement? && n.attributes == [] && |n.children| == 1 && n.children[0].JSXText?
    ensures VisitInside(n, route, ctx, scan) == (n, scan)
  {
    var inner := route + [Item("children", 0)];
    assert Visit(n.children[0], inner, ctx, scan) == (n.children[0], scan);
    assert VisitChildren(n, 1, route, ctx, scan) == ([], scan);
    assert [n.children[0]] + [] == n.children;
    assert VisitChildren(n, 0, route, ctx, scan) == (n.children, scan);
    assert VisitAttributes(n, 0, route, ctx, scan) == ([], scan);
  }

  /** A paragraph whose scope path is not registered stays as it is. */
  lemma KeepParagraph(text: string, ctx: Context, scan: Scan)
    requires !Registered(ctx.scopes, GenerateScopePath(PathLocation(LocationAt(ctx, scan, Route))))
    ensures Visit(Paragraph(text), Route, ctx, scan) == (Paragraph(text), scan)
  {
    InsideSingleText(Paragraph(text), Route, ctx, scan);
  }

  const Scopes: Option<Record<bool>> := Some([(Key0, true), (Key1, true)])

  /** The IntlComponent a paragraph of `page.tsx` registered under `key` becomes. */
  function Rewritten(key: string): Node
  {
    Replacement([], "p", "page.tsx", key, [])
  }

  /** The scope path looked up for the JSX of the statement the scan reaches at index `i`. */
  lemma KeyLookedUp(ctx: Context, scan: Scan, i: nat, key: string)
    requires i < 10 && key == "program/body" + [DigitChar(i)] + "/expression"
    requires (if ctx.mode == AsWritten then ctx.statement + scan.shift else ctx.statement) == i
    ensures GenerateScopePath(PathLocation(LocationAt(ctx, scan, Route))) == key
  {
    ScopeKeyAt(i);
    assert LocationAt(ctx, scan, Route) == StatementLocation(i) + Route;
  }

  /** In either mode the import the first rewrite ensures goes in front of the body. */
  lemma ImportInFront(mode: Mode)
    ensures AfterImport(Context(mode, "page.tsx", Scopes, 0), Scan(TwoStatements, 0, true))
         == Scan([NewImport] + TwoStatements, 1, true)
  {
    assert FirstIntlDeclaration(TwoStatements) == -1;
    assert !AnyImportsIntlComponent(TwoStatements);
  }

  /** In either mode the first paragraph is rewritten, and the import goes in front of the body. */
  lemma FirstStatementRewritten(mode: Mode)
    ensures VisitStatement(TwoStatements[0].embedded, Context(mode, "page.tsx", Scopes, 0), Scan(TwoStatements, 0, false))
         == ([Embedded(Route, Rewritten(Key0))], Scan([NewImport] + TwoStatements, 1, true))
  {
    var ctx := Context(mode, "page.tsx", Scopes, 0);
    var s0 := Scan(TwoStatements, 0, false);
    KeyLookedUp(ctx, s0, 0, Key0);
    RewriteParagraph("Hi", ctx, s0, Key0);
    ImportInFront(mode);
    VisitSingle(TwoStatements[0].embedded[0], ctx, s0);
  }

  /** The body once the first statement has been rewritten. */
  const AfterFirst: seq<Statement> := [NewImport, Code([Embedded(Route, Rewritten(Key0))]), TwoStatements[1]]

  lemma AfterFirstHasImport()
    ensures FirstIntlDeclaration(AfterFirst) == 0 && ImportsIntlComponent(AfterFirst[0])
    ensures AnyImportsIntlComponent(AfterFirst)
  {
    assert NamesIntlComponent(AfterFirst[0].specifiers[0]);
  }

  /** As written, the second statement is looked up as `program/body2/expression`, which is not registered. */
  lemma SecondStatementAsWritten()
    ensures VisitStatement(TwoStatements[1].embedded, Context(AsWritten, "page.tsx", Scopes, 1), Scan(AfterFirst, 1, true))
         == (TwoStatements[1].embedded, Scan(AfterFirst, 1, true))
  {
    var ctx := Context(AsWritten, "page.tsx", Scopes, 1);
    var s := Scan(AfterFirst, 1, true);
    var key := "program/body2/expression";
    KeyLookedUp(ctx, s, 2, key);
    assert key[12] != Key0[12] && key[12] != Key1[12];
    assert !Registered(Scopes, key);
    KeepParagraph("Bye", ctx, s);
    VisitSingle(TwoStatements[1].embedded[0], ctx, s);
  }

  /** Intended, the second statement is looked up as `program/body1/expression` and rewritten. */
  lemma SecondStatementIntended()
    ensures VisitStatement(TwoStatements[1].embedded, Context(Intended, "page.tsx", Scopes, 1), Scan(AfterFirst, 1, true))
         == ([Embedded(Route, Rewritten(Key1))], Scan(AfterFirst, 1, true))
  {
    var ctx := Context(Intended, "page.tsx", Scopes, 1);
    var s := Scan(AfterFirst, 1, true);
    KeyLookedUp(ctx, s, 1, Key1);
    assert Registered(Scopes, Key1) by {
      assert Key1[12] != Key0[12];
    }
    RewriteParagraph("Bye", ctx, s, Key1);
    AfterFirstHasImport();
    assert AfterImport(ctx, s) == s;
    VisitSingle(TwoStatements[1].embedded[0], ctx, s);
  }

  /** One step of the scan over a code statement. */
  lemma {:induction false} ScanCodeStep(original: seq<Statement>, i: nat, mode: Mode, scopes: Option<Record<bool>>, scan: Scan,
                     embedded': seq<Embedded>, scan1: Scan)
    requires i < |original| && original[i].Code? && |scan.body| == |original| + scan.shift
    requires VisitStatement(original[i].embedded, Context(mode, "page.tsx", scopes, i), scan) == (embedded', scan1)
    ensures ScanBody(original, i, mode, "page.tsx", scopes, scan)
         == ScanBody(original, i + 1, mode, "page.tsx", scopes, scan1.(body := scan1.body[i + scan1.shift := Code(embedded')]))
  {
  }

  /** A scan that ends flagged turns the file into its rewritten body. */
  lemma {:induction false} GeneratedFromScan(mode: Mode, code: string, program: Program, filePath: string,
                                             files: Record<FileEntry>, scopes: Option<Record<bool>>, final: Scan)
    requires Get(files, filePath) == Some(FileData(scopes))
    requires ScanBody(program.body, 0, mode, filePath, scopes, Scan(program.body, 0, false)) == final
    requires final.changed
    ensures TransformWith(mode, code, Some(program), filePath, files) == Generated(Program(final.body))
  {
  }

  /**
   * As written: rewriting the first paragraph puts the import in front of the body,
   * so the second statement is reached as `program.body[2]`; its registered scope
   * `program/body1/expression` is never looked up and the paragraph stays untranslated.
   */
  lemma LaterStatementMissedAsWritten(code: string)
    ensures TransformCode(code, Some(Program(TwoStatements)), "page.tsx", BothRegistered)
         == Generated(Program(AfterFirst))
  {
    var s0 := Scan(TwoStatements, 0, false);
    var s1 := Scan(AfterFirst, 1, true);
    FirstStatementRewritten(AsWritten);
    assert ([NewImport] + TwoStatements)[1 := Code([Embedded(Route, Rewritten(Key0))])] == AfterFirst;
    ScanCodeStep(TwoStatements, 0, AsWritten, Scopes, s0, [Embedded(Route, Rewritten(Key0))], Scan([NewImport] + TwoStatements, 1, true));
    SecondStatementAsWritten();
    ScanCodeStep(TwoStatements, 1, AsWritten, Scopes, s1, TwoStatements[1].embedded, s1);
    assert AfterFirst[2 := Code(TwoStatements[1].embedded)] == AfterFirst;
    assert ScanBody(TwoStatements, 2, AsWritten, "page.tsx", Scopes, s1) == s1;
    assert Get(BothRegistered, "page.tsx") == Some(FileData(Scopes));
    GeneratedFromScan(AsWritten, code, Program(TwoStatements), "page.tsx", BothRegistered, Scopes, s1);
  }

  /** Intended: both paragraphs are looked up where the extraction pass saw them, and both are rewritten. */
  lemma BothStatementsRewrittenIntended(code: string)
    ensures TransformWith(Intended, code, Some(Program(TwoStatements)), "page.tsx", BothRegistered)
         == Generated(Program([NewImport, Code([Embedded(Route, Rewritten(Key0))]), Code([Embedded(Route, Rewritten(Key1))])]))
  {
    var s0 := Scan(TwoStatements, 0, false);
    var s1 := Scan(AfterFirst, 1, true);
    FirstStatementRewritten(Intended);
    assert ([NewImport] + TwoStatements)[1 := Code([Embedded(Route, Rewritten(Key0))])] == AfterFirst;
    ScanCodeStep(TwoStatements, 0, Intended, Scopes, s0, [Embedded(Route, Rewritten(Key0))], Scan([NewImport] + TwoStatements, 1, true));
    SecondStatementIntended();
    var s2 := Scan(AfterFirst[2 := Code([Embedded(Route, Rewritten(Key1))])], 1, true);
    ScanCodeStep(TwoStatements, 1, Intended, Scopes, s1, [Embedded(Route, Rewritten(Key1))], s1);
    assert ScanBody(TwoStatements, 2, Intended, "page.tsx", Scopes, s2) == s2;
    assert s2.body == [NewImport, Code([Embedded(Route, Rewritten(Key0))]), Code([Embedded(Route, Rewritten(Key1))])];
    assert Get(BothRegistered, "page.tsx") == Some(FileData(Scopes));
    GeneratedFromScan(Intended, code, Program(TwoStatements), "page.tsx", BothRegistered, Scopes, s2);
  }

  const Title := JSXElement(JSXNamespacedName("svg", "title"), [], [JSXText("Hi")], false)

  /** A registered `<svg:title>` is visited in place, but the scan is flagged as changed. */
  lemma VisitNamespaced(ctx: Context, scan: Scan)
    requires Registered(ctx.scopes, GenerateScopePath(PathLocation(LocationAt(ctx, scan, Route))))
    ensures Visit(Title, Route, ctx, scan) == (Title, scan.(changed := true))
  {
    assert HasTranslatableText(Title.children) by {
      assert !IsSpace(Title.children[0].value[0]);
    }
    InsideSingleText(Title, Route, ctx, scan.(changed := true));
  }

  lemma NamespacedStatement(ctx: Context, s0: Scan)
    requires ctx == Context(AsWritten, "page.tsx", Some([(Key0, true)]), 0)
    requires s0.shift == 0
    ensures VisitStatement([Embedded(Route, Title)], ctx, s0) == ([Embedded(Route, Title)], s0.(changed := true))
  {
    FirstKeyRegistered(ctx, s0);
    VisitNamespaced(ctx, s0);
    VisitSingle(Embedded(Route, Title), ctx, s0);
  }

  /** The JSX of the first statement, in a scan that has prepended nothing, is looked up under `Key0`. */
  lemma FirstKeyRegistered(ctx: Context, s0: Scan)
    requires ctx == Context(AsWritten, "page.tsx", Some([(Key0, true)]), 0)
    requires s0.shift == 0
    ensures Registered(ctx.scopes, GenerateScopePath(PathLocation(LocationAt(ctx, s0, Route))))
  {
    KeyLookedUp(ctx, s0, 0, Key0);
  }

  /**
   * `hasTransformations` is set before the tag is resolved: whatever the source
   * text, a registered `<svg:title>` element is not rewritten, yet the file is
   * regenerated.
   */
  lemma NamespacedElementStillRegenerates(code: string)
    ensures TransformCode(code, Some(Program([Code([Embedded(Route, Title)])])), "page.tsx",
                          [("page.tsx", FileData(Some([(Key0, true)])))])
         == Generated(Program([Code([Embedded(Route, Title)])]))
  {
    var body := [Code([Embedded(Route, Title)])];
    var scopes := Some([(Key0, true)]);
    var files := [("page.tsx", FileData(scopes))];
    var s0 := Scan(body, 0, false);
    var flagged := Scan(body, 0, true);
    NamespacedStatement(Context(AsWritten, "page.tsx", scopes, 0), s0);
    ScanCodeStep(body, 0, AsWritten, scopes, s0, [Embedded(Route, Title)], flagged);
    assert flagged.body[0 := Code([Embedded(Route, Title)])] == body;
    assert ScanBody(body, 1, AsWritten, "page.tsx", scopes, flagged) == flagged;
    assert Get(files, "page.tsx") == Some(FileData(scopes));
    GeneratedFromScan(AsWritten, code, Program(body), "page.tsx", files, scopes, flagged);
  }
}
