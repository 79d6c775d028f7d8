// The extraction side's serialisation of an element's children into the
// pseudo-markup the dictionary stores (dist/parser/utils.js, buildContent):
// trimmed text for text children and `<element:N>inner</element:N>` for
// element children. The runtime splits such a string again (module Markup);
// the last lemmas here connect the two.

module ContentBuilder {
  import opened Text
  import opened Jsx
  import opened Markup

  /** The pseudo-tag name of an element child: the rewriter's element name, or "Unknown" when it has none. */
  function PseudoTagName(tag: ElementName): (r: string)
    ensures GetJSXElementName(tag).Some? ==> r == GetJSXElementName(tag).value
    ensures GetJSXElementName(tag).None? ==> r == "Unknown"
  {
    match tag
    case JSXIdentifier(name) => name
    case JSXMemberExpression(_, property) => property
    case JSXNamespacedName(_, _) => "Unknown"
  }

  /** What one child adds to the content; every other kind of child adds nothing. */
  function ChildContent(child: Node): string
    decreases child
  {
    match child
    case JSXText(value) => Trim(value)
    case JSXElement(tag, _, children, _) => ElementMarkup(PseudoTagName(tag), BuildContent(children))
    case _ => []
  }

  /** `buildContent(node)`, which reads only `node.children`: the children's contributions in order. */
  function BuildContent(children: seq<Node>): string
    decreases children
  {
    if children == [] then [] else ChildContent(children[0]) + BuildContent(children[1..])
  }

  /** The content of two runs of children is the content of the first followed by that of the second. */
  lemma {:induction false} BuildContentAppend(a: seq<Node>, b: seq<Node>)
    ensures BuildContent(a + b) == BuildContent(a) + BuildContent(b)
  {
    if a == [] {
      assert a + b == b;
    } else {
      assert (a + b)[0] == a[0] && (a + b)[1..] == a[1..] + b;
      BuildContentAppend(a[1..], b);
    }
  }

  /**
   * A child adds nothing exactly when it is blank text or neither text nor an
   * element: expression containers, fragments and whitespace-only text vanish.
   */
  lemma ChildContentEmpty(child: Node)
    ensures ChildContent(child) == [] <==> !child.JSXElement? && (child.JSXText? ==> IsBlank(child.value))
  {
    if child.JSXText? {
      TrimEmptyIffBlank(child.value);
    }
    if child.JSXElement? {
      MarkupLength(PseudoTagName(child.tag), BuildContent(child.children));
    }
  }

  /** A child that adds nothing can be dropped from the children. */
  lemma IgnoredChild(before: seq<Node>, child: Node, after: seq<Node>)
    requires !child.JSXElement? && (child.JSXText? ==> IsBlank(child.value))
    ensures BuildContent(before + [child] + after) == BuildContent(before + after)
  {
    ChildContentEmpty(child);
    BuildContentAppend(before + [child], after);
    BuildContentAppend(before, [child]);
    assert BuildContent([child]) == ChildContent(child) + BuildContent([]);
    BuildContentAppend(before, after);
  }

  // ---------------------------------------------------------------------------
  // The content as pieces, as the runtime sees them.

  /** The piece one child stands for: its trimmed text, or its element with the element's own content. */
  function ChildPieces(children: seq<Node>): seq<Piece>
  {
    if children == [] then []
    else
      var c := children[0];
      (if c.JSXText? then [Plain(Trim(c.value))]
       else if c.JSXElement? then [Tagged(PseudoTagName(c.tag), BuildContent(c.children))]
       else [])
      + ChildPieces(children[1..])
  }

  /** The pieces of the children spell out their content. */
  lemma {:induction false} ChildPiecesText(children: seq<Node>)
    ensures Unparse(ChildPieces(children)) == BuildContent(children)
  {
    if children != [] {
      var c := children[0];
      var head := if c.JSXText? then [Plain(Trim(c.value))]
                  else if c.JSXElement? then [Tagged(PseudoTagName(c.tag), BuildContent(c.children))]
                  else [];
      ChildPiecesText(children[1..]);
      UnparseAppend(head, ChildPieces(children[1..]));
      if head != [] {
        assert head[1..] == [];
      }
    }
  }

  /**
   * The runtime splitter recovers the children: when the texts hold no `<`,
   * the names are word names and the element children hold no further
   * elements, the pieces of the content are the children's pieces with empty
   * texts dropped and neighbouring texts joined.
   */
  lemma ContentSplitsIntoChildren(children: seq<Node>)
    requires WellFormed(ChildPieces(children))
    ensures Pieces(MatchPrefix, BuildContent(children)) == Merge(ChildPieces(children))
  {
    ChildPiecesText(children);
    PatternAnchored();
    PatternFinds();
    PiecesOfUnparse(MatchPrefix, ChildPieces(children));
  }

  /** Under the same conditions the runtime finds every element child, in order, with its name and content. */
  lemma ContentKeepsElements(children: seq<Node>)
    requires WellFormed(ChildPieces(children))
    ensures TaggedOf(Pieces(MatchPrefix, BuildContent(children))) == TaggedOf(ChildPieces(children))
  {
    ContentSplitsIntoChildren(children);
    MergeKeepsTagged(ChildPieces(children));
  }
}
