// What the rewriter guarantees about whole files, proved over its scan.

module RewriterProperties {
  import opened Text
  import opened ScopePath
  import opened Jsx
  import opened IntlImport
  import opened Rewriter

  // ---------------------------------------------------------------------------
  // Which elements pass both of the visitor's tests where they stand in the
  // parsed file, statement `i` of the body. Until the first rewrite nothing has
  // been put in front of the body, so these are the locations the scan computes.

  /** Some element the traversal of `n` reaches passes both tests. */
  predicate Hits(n: Node, i: nat, route: Location, scopes: Option<Record<bool>>)
    decreases n, 2
  {
    match n
    case JSXElement(_, _, _, _) =>
      Passes(n, StatementLocation(i) + route, scopes) || AttributesHit(n, 0, i, route, scopes)
      || ChildrenHit(n, 0, i, route, scopes)
    case JSXFragment(_) => ChildrenHit(n, 0, i, route, scopes)
    case JSXExpressionContainer(e) => Hits(e, i, route + [Field("expression")], scopes)
    case Expression(_) => EmbeddedHit(n, 0, i, route, scopes)
    case _ => false
  }

  predicate AttributesHit(owner: Node, j: nat, i: nat, route: Location, scopes: Option<Record<bool>>)
    requires owner.JSXElement? && j <= |owner.attributes|
    decreases owner, 0, |owner.attributes| - j
  {
    j < |owner.attributes| &&
    ((match owner.attributes[j]
      case JSXAttribute(_, value) =>
        value.Some? && Hits(value.value, i, route + [Field("openingElement"), Item("attributes", j), Field("value")], scopes)
      case JSXSpreadAttribute(argument) =>
        Hits(argument, i, route + [Field("openingElement"), Item("attributes", j), Field("argument")], scopes))
     || AttributesHit(owner, j + 1, i, route, scopes))
  }

  predicate ChildrenHit(owner: Node, k: nat, i: nat, route: Location, scopes: Option<Record<bool>>)
    requires (owner.JSXElement? || owner.JSXFragment?) && k <= |owner.children|
    decreases owner, 0, |owner.children| - k
  {
    k < |owner.children| &&
    (Hits(owner.children[k], i, route + [Item("children", k)], scopes) || ChildrenHit(owner, k + 1, i, route, scopes))
  }

  predicate EmbeddedHit(owner: Node, k: nat, i: nat, route: Location, scopes: Option<Record<bool>>)
    requires owner.Expression? && k <= |owner.embedded|
    decreases owner, 0, |owner.embedded| - k
  {
    k < |owner.embedded| &&
    (Hits(owner.embedded[k].node, i, route + owner.embedded[k].route, scopes) || EmbeddedHit(owner, k + 1, i, route, scopes))
  }

  predicate StatementHits(embedded: seq<Embedded>, i: nat, scopes: Option<Record<bool>>)
  {
    embedded != [] && (Hits(embedded[0].node, i, embedded[0].route, scopes) || StatementHits(embedded[1..], i, scopes))
  }

  /** Some code statement from position `i` on holds an element that passes both tests. */
  predicate BodyHits(body: seq<Statement>, i: nat, scopes: Option<Record<bool>>)
    requires i <= |body|
    decreases |body| - i
  {
    i < |body| && ((body[i].Code? && StatementHits(body[i].embedded, i, scopes)) || BodyHits(body, i + 1, scopes))
  }

  // ---------------------------------------------------------------------------
  // Before anything was put in front of the body, a subtree in which no element
  // passes comes back as it went in with the scan state untouched, and one in
  // which some element passes sets the flag.

  lemma {:induction false} VisitExact(n: Node, route: Location, ctx: Context, scan: Scan)
    requires scan.shift == 0
    ensures Hits(n, ctx.statement, route, ctx.scopes) ==> Visit(n, route, ctx, scan).1.changed
    ensures !Hits(n, ctx.statement, route, ctx.scopes) ==> Visit(n, route, ctx, scan) == (n, scan)
    decreases n, 2
  {
    match n
    case JSXElement(_, _, _, _) =>
      assert LocationAt(ctx, scan, route) == StatementLocation(ctx.statement) + route;
      if !Passes(n, StatementLocation(ctx.statement) + route, ctx.scopes) {
        VisitInsideExact(n, route, ctx, scan);
      }
    case JSXFragment(_) =>
      VisitChildrenExact(n, 0, route, ctx, scan);
      assert n.children[0..] == n.children;
    case JSXExpressionContainer(e) =>
      VisitExact(e, route + [Field("expression")], ctx, scan);
    case Expression(_) =>
      VisitEmbeddedExact(n, 0, route, ctx, scan);
      assert n.embedded[0..] == n.embedded;
    case _ =>
  }

  lemma {:induction false} VisitInsideExact(n: Node, route: Location, ctx: Context, scan: Scan)
    requires n.JSXElement? && scan.shift == 0
    ensures AttributesHit(n, 0, ctx.statement, route, ctx.scopes) || ChildrenHit(n, 0, ctx.statement, route, ctx.scopes)
            ==> VisitInside(n, route, ctx, scan).1.changed
    ensures !AttributesHit(n, 0, ctx.statement, route, ctx.scopes) && !ChildrenHit(n, 0, ctx.statement, route, ctx.scopes)
            ==> VisitInside(n, route, ctx, scan) == (n, scan)
    decreases n, 1
  {
    VisitAttributesExact(n, 0, route, ctx, scan);
    if !AttributesHit(n, 0, ctx.statement, route, ctx.scopes) {
      VisitChildrenExact(n, 0, route, ctx, scan);
      assert n.attributes[0..] == n.attributes && n.children[0..] == n.children;
    }
  }

  lemma {:induction false} VisitAttributesExact(owner: Node, j: nat, route: Location, ctx: Context, scan: Scan)
    requires owner.JSXElement? && j <= |owner.attributes| && scan.shift == 0
    ensures AttributesHit(owner, j, ctx.statement, route, ctx.scopes) ==> VisitAttributes(owner, j, route, ctx, scan).1.changed
    ensures !AttributesHit(owner, j, ctx.statement, route, ctx.scopes)
            ==> VisitAttributes(owner, j, route, ctx, scan) == (owner.attributes[j..], scan)
    decreases owner, 0, |owner.attributes| - j
  {
    if j < |owner.attributes| {
      var here := route + [Field("openingElement"), Item("attributes", j)];
      match owner.attributes[j] {
        case JSXAttribute(name, value) =>
          if value.Some? {
            assert here + [Field("value")] == route + [Field("openingElement"), Item("attributes", j), Field("value")];
            VisitExact(value.value, here + [Field("value")], ctx, scan);
            assert JSXAttribute(name, Some(value.value)) == owner.attributes[j];
          }
        case JSXSpreadAttribute(argument) =>
          assert here + [Field("argument")] == route + [Field("openingElement"), Item("attributes", j), Field("argument")];
          VisitExact(argument, here + [Field("argument")], ctx, scan);
      }
      VisitAttributesExact(owner, j + 1, route, ctx, scan);
      assert owner.attributes[j..] == [owner.attributes[j]] + owner.attributes[j + 1..];
    } else {
      assert owner.attributes[j..] == [];
    }
  }

  lemma {:induction false} VisitChildrenExact(owner: Node, k: nat, route: Location, ctx: Context, scan: Scan)
    requires (owner.JSXElement? || owner.JSXFragment?) && k <= |owner.children| && scan.shift == 0
    ensures ChildrenHit(owner, k, ctx.statement, route, ctx.scopes) ==> VisitChildren(owner, k, route, ctx, scan).1.changed
    ensures !ChildrenHit(owner, k, ctx.statement, route, ctx.scopes)
            ==> VisitChildren(owner, k, route, ctx, scan) == (owner.children[k..], scan)
    decreases owner, 0, |owner.children| - k
  {
    if k < |owner.children| {
      VisitExact(owner.children[k], route + [Item("children", k)], ctx, scan);
      VisitChildrenExact(owner, k + 1, route, ctx, scan);
      assert owner.children[k..] == [owner.children[k]] + owner.children[k + 1..];
    }
  }

  lemma {:induction false} VisitEmbeddedExact(owner: Node, k: nat, route: Location, ctx: Context, scan: Scan)
    requires owner.Expression? && k <= |owner.embedded| && scan.shift == 0
    ensures EmbeddedHit(owner, k, ctx.statement, route, ctx.scopes) ==> VisitEmbedded(owner, k, route, ctx, scan).1.changed
    ensures !EmbeddedHit(owner, k, ctx.statement, route, ctx.scopes)
            ==> VisitEmbedded(owner, k, route, ctx, scan) == (owner.embedded[k..], scan)
    decreases owner, 0, |owner.embedded| - k
  {
    if k < |owner.embedded| {
      var e := owner.embedded[k];
      assert owner.embedded[k..] == [e] + owner.embedded[k + 1..];
      assert Embedded(e.route, e.node) == e;
      VisitExact(e.node, route + e.route, ctx, scan);
      VisitEmbeddedExact(owner, k + 1, route, ctx, scan);
      if !EmbeddedHit(owner, k, ctx.statement, route, ctx.scopes) {
        assert Visit(e.node, route + e.route, ctx, scan) == (e.node, scan);
        assert VisitEmbedded(owner, k, route, ctx, scan) == ([Embedded(e.route, e.node)] + owner.embedded[k + 1..], scan);
      }
    } else {
      assert owner.embedded[k..] == [];
    }
  }

  lemma {:induction false} VisitStatementExact(embedded: seq<Embedded>, ctx: Context, scan: Scan)
    requires scan.shift == 0
    ensures StatementHits(embedded, ctx.statement, ctx.scopes) ==> VisitStatement(embedded, ctx, scan).1.changed
    ensures !StatementHits(embedded, ctx.statement, ctx.scopes) ==> VisitStatement(embedded, ctx, scan) == (embedded, scan)
  {
    if embedded != [] {
      VisitExact(embedded[0].node, embedded[0].route, ctx, scan);
      VisitStatementExact(embedded[1..], ctx, scan);
      assert Embedded(embedded[0].route, embedded[0].node) == embedded[0];
      assert embedded == [embedded[0]] + embedded[1..];
    }
  }

  /** The scan of a body from statement `i` on, before anything was rewritten. */
  lemma {:induction false} ScanBodyExact(original: seq<Statement>, i: nat, mode: Mode, filePath: string,
                                         scopes: Option<Record<bool>>)
    requires i <= |original|
    ensures BodyHits(original, i, scopes) ==> ScanBody(original, i, mode, filePath, scopes, Scan(original, 0, false)).changed
    ensures !BodyHits(original, i, scopes)
            ==> ScanBody(original, i, mode, filePath, scopes, Scan(original, 0, false)) == Scan(original, 0, false)
    decreases |original| - i
  {
    if i < |original| {
      if original[i].Code? {
        VisitStatementExact(original[i].embedded, Context(mode, filePath, scopes, i), Scan(original, 0, false));
        if !StatementHits(original[i].embedded, i, scopes) {
          assert original[i := Code(original[i].embedded)] == original;
          ScanBodyExact(original, i + 1, mode, filePath, scopes);
        }
      } else {
        ScanBodyExact(original, i + 1, mode, filePath, scopes);
      }
    }
  }

  /**
   * `transformCode` returns its input text exactly when no element of the file,
   * at its place in the parsed program, has translatable text and a registered
   * scope path; otherwise it generates code from the changed tree.
   */
  lemma TransformUnchangedExactly(mode: Mode, code: string, program: Program, filePath: string, files: Record<FileEntry>)
    requires Get(files, filePath).Some? && Get(files, filePath).value.FileData?
    ensures TransformWith(mode, code, Some(program), filePath, files).Unchanged?
            <==> !BodyHits(program.body, 0, Get(files, filePath).value.scopes)
    ensures !BodyHits(program.body, 0, Get(files, filePath).value.scopes)
            ==> TransformWith(mode, code, Some(program), filePath, files) == Unchanged(code)
  {
    ScanBodyExact(program.body, 0, mode, filePath, Get(files, filePath).value.scopes);
  }

  // ---------------------------------------------------------------------------
  // In the intended mode a statement's rewrite depends only on the statement:
  // nothing the scan did before it (an import put in front of the body, the
  // flag) changes what its elements become.

  lemma {:induction false} IntendedVisitStable(n: Node, route: Location, ctx: Context, s1: Scan, s2: Scan)
    requires ctx.mode == Intended
    ensures Visit(n, route, ctx, s1).0 == Visit(n, route, ctx, s2).0
    decreases n, 2
  {
    match n
    case JSXElement(tag, _, children, _) =>
      assert LocationAt(ctx, s1, route) == LocationAt(ctx, s2, route);
      var scopePath := GenerateScopePath(PathLocation(LocationAt(ctx, s1, route)));
      if !HasTranslatableText(children) || !Registered(ctx.scopes, scopePath) {
        IntendedVisitInsideStable(n, route, ctx, s1, s2);
      } else if GetJSXElementName(tag).None? {
        IntendedVisitInsideStable(n, route, ctx, s1.(changed := true), s2.(changed := true));
      } else {
        IntendedVisitAttributesStable(n, 0, route, ctx, AfterImport(ctx, s1.(changed := true)),
                                      AfterImport(ctx, s2.(changed := true)));
      }
    case JSXFragment(_) =>
      IntendedVisitChildrenStable(n, 0, route, ctx, s1, s2);
    case JSXExpressionContainer(e) =>
      IntendedVisitStable(e, route + [Field("expression")], ctx, s1, s2);
    case Expression(_) =>
      IntendedVisitEmbeddedStable(n, 0, route, ctx, s1, s2);
    case _ =>
  }

  lemma {:induction false} IntendedVisitInsideStable(n: Node, route: Location, ctx: Context, s1: Scan, s2: Scan)
    requires ctx.mode == Intended && n.JSXElement?
    ensures VisitInside(n, route, ctx, s1).0 == VisitInside(n, route, ctx, s2).0
    decreases n, 1
  {
    IntendedVisitAttributesStable(n, 0, route, ctx, s1, s2);
    var t1 := VisitAttributes(n, 0, route, ctx, s1).1;
    var t2 := VisitAttributes(n, 0, route, ctx, s2).1;
    IntendedVisitChildrenStable(n, 0, route, ctx, t1, t2);
  }

  lemma {:induction false} IntendedVisitAttributesStable(owner: Node, j: nat, route: Location, ctx: Context,
                                                         s1: Scan, s2: Scan)
    requires ctx.mode == Intended && owner.JSXElement? && j <= |owner.attributes|
    ensures VisitAttributes(owner, j, route, ctx, s1).0 == VisitAttributes(owner, j, route, ctx, s2).0
    decreases owner, 0, |owner.attributes| - j
  {
    if j < |owner.attributes| {
      var here := route + [Field("openingElement"), Item("attributes", j)];
      var t1, t2 := s1, s2;
      match owner.attributes[j] {
        case JSXAttribute(_, value) =>
          if value.Some? {
            IntendedVisitStable(value.value, here + [Field("value")], ctx, s1, s2);
            t1 := Visit(value.value, here + [Field("value")], ctx, s1).1;
            t2 := Visit(value.value, here + [Field("value")], ctx, s2).1;
          }
        case JSXSpreadAttribute(argument) =>
          IntendedVisitStable(argument, here + [Field("argument")], ctx, s1, s2);
          t1 := Visit(argument, here + [Field("argument")], ctx, s1).1;
          t2 := Visit(argument, here + [Field("argument")], ctx, s2).1;
      }
      IntendedVisitAttributesStable(owner, j + 1, route, ctx, t1, t2);
    }
  }

  lemma {:induction false} IntendedVisitChildrenStable(owner: Node, k: nat, route: Location, ctx: Context,
                                                       s1: Scan, s2: Scan)
    requires ctx.mode == Intended && (owner.JSXElement? || owner.JSXFragment?) && k <= |owner.children|
    ensures VisitChildren(owner, k, route, ctx, s1).0 == VisitChildren(owner, k, route, ctx, s2).0
    decreases owner, 0, |owner.children| - k
  {
    if k < |owner.children| {
      var here := route + [Item("children", k)];
      IntendedVisitStable(owner.children[k], here, ctx, s1, s2);
      IntendedVisitChildrenStable(owner, k + 1, route, ctx, Visit(owner.children[k], here, ctx, s1).1,
                                  Visit(owner.children[k], here, ctx, s2).1);
    }
  }

  lemma {:induction false} IntendedVisitEmbeddedStable(owner: Node, k: nat, route: Location, ctx: Context,
                                                       s1: Scan, s2: Scan)
    requires ctx.mode == Intended && owner.Expression? && k <= |owner.embedded|
    ensures VisitEmbedded(owner, k, route, ctx, s1).0 == VisitEmbedded(owner, k, route, ctx, s2).0
    decreases owner, 0, |owner.embedded| - k
  {
    if k < |owner.embedded| {
      var e := owner.embedded[k];
      IntendedVisitStable(e.node, route + e.route, ctx, s1, s2);
      IntendedVisitEmbeddedStable(owner, k + 1, route, ctx, Visit(e.node, route + e.route, ctx, s1).1,
                                  Visit(e.node, route + e.route, ctx, s2).1);
    }
  }

  /**
   * Intended behaviour: what a statement's JSX becomes does not depend on the
   * scan state it is reached with, so an import added for an earlier element
   * cannot move the scope paths of later ones.
   */
  lemma {:induction false} IntendedStatementStable(embedded: seq<Embedded>, ctx: Context, s1: Scan, s2: Scan)
    requires ctx.mode == Intended
    ensures VisitStatement(embedded, ctx, s1).0 == VisitStatement(embedded, ctx, s2).0
  {
    if embedded != [] {
      IntendedVisitStable(embedded[0].node, embedded[0].route, ctx, s1, s2);
      IntendedStatementStable(embedded[1..], ctx, Visit(embedded[0].node, embedded[0].route, ctx, s1).1,
                              Visit(embedded[0].node, embedded[0].route, ctx, s2).1);
    }
  }
}
