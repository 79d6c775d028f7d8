# nextjs-auto-translate, modelled in Dafny

This project models the core of `nextjs-auto-translate` (the `algebras-auto-intl` package). The package translates a Next.js application automatically, in two passes.

At build time, an extraction pass registers every JSX element that holds text under a *scope path*. This is the element's Babel node location with list indices collapsed and dots turned into slashes. The pass also serialises the element's children into a pseudo-markup, `<element:name>inner</element:name>`. The compiler pass then re-parses each file. It rewrites every registered element into a self-closing `<IntlComponent $as=… $filePath=… $scopePath=… $variables=…/>` and makes sure the component is imported. An older injector does the same for single text nodes with `<Translated tKey="file::scope"/>`.

At run time, the component looks the text up in a dictionary, file → scope → locale, falling back to English. It substitutes `{variable}` placeholders and turns the `<element:name>…</element:name>` fragments back into React nodes. A dictionary loader answers queries over the same dictionary. A locale switcher keeps the current locale within a list.

The model has these modules:

- `Text`: JavaScript's `trim`, `split`/`join`, decimal rendering, objects as ordered association lists (`Record`), and `Set` insertion order (`Dedup`).
- `Markup`: the `<element:(\w+)>([^<]*)</element:\1>` pattern as a matcher, a leftmost `exec` search, and the split of a text into text and element pieces. It proves both round trips.
- `ScopePath`: Babel node locations, the rewriter's `generateScopePath`, and the extraction side's `getRelativeScopePath`.
- `Jsx`: the Babel tree as a datatype, and the rewriter's pure tests (`hasTranslatableText`, `getJSXElementName`, scope membership).
- `ContentBuilder`: `buildContent`, the serialiser of element children.
- `Rewriter`, `RewriterProperties`, `RewriterExamples`, `IntlImport`: `transformCode`, written as the pre-order scan Babel performs, with the import ensured in the middle of the scan as the source does.
- `Injector`: the older text-node injector and `transformProject`.
- `Substitution`, `IntlComponent`: the React component's `parseContent` (a `while exec` loop) and its lookup and render choices.
- `IntlComponentFactory`: the plain component in `src/client/IntlComponent.ts`.
- `DictionaryLoader`: the memoised loader class and its queries.
- `Browser`, `LocaleSwitcher`: the browser's URL parameter and saved locale as values, and the switcher class.

The parser, code generator and dynamic imports are outside the model. Parsing is an oracle: an `Option<Program>` given with the code. Generation returns the changed tree (`Generated(program)`) or the original code (`Unchanged(code)`). Three behaviours of the code the model keeps:

- `parseContent` in `src/client/IntlComponent.tsx` returns the substituted string itself only when substitution emptied it. With no fragment in a non-empty text it returns a one-element array holding that text, because the trailing-text step pushes it (`IntlComponent.NoFragment`).
- The dictionary loader's `getTranslation` has no English fallback.
- `transformProject` uses only the first key of the scope map.

## Model

| member | source | states |
|---|---|---|
| Text.TrimEmptyIffBlank | src/compiler/ASTTransformer.ts:92-96 | a trimmed text is empty (falsy) exactly when the text is all white space |
| Text.TrimmedHasNoOuterSpace | dist/parser/utils.js:10 | `trim` leaves no white space at either end |
| Text.NatToStringRoundTrip | src/compiler/ASTTransformer.ts:108 | the digits a list index is rendered with read back as that index |
| Text.SplitJoinRoundTrip | dist/parser/utils.js:35 | `split(".")` followed by `join(".")` gives the string back |
| Text.SplitAtFirst | dist/parser/utils.js:35 | the first separator ends the first part of a split, and the rest splits on its own |
| Text.Get | src/client/IntlComponent.tsx:164-180 | a property read is `undefined` exactly when the key is absent, and otherwise yields a value stored under the key |
| Text.PutGet | src/integration/DictionaryLoader.ts:126 | after a property write, the written key reads the new value and every other key its old one |
| Text.Dedup | src/integration/DictionaryLoader.ts:95-105 | a `Set` filled from a list holds exactly the list's elements, each once |
| Text.DedupFrom | src/integration/DictionaryLoader.ts:95-105 | adding a list to a `Set` keeps what was there as a prefix, holds exactly the old and new elements, and holds no duplicates |
| Markup.MatchPrefixBounds | src/client/IntlComponent.tsx:82 | a match of the fragment pattern starts where it is tried and spans a non-empty part of the text |
| Markup.MatchPrefixGroups | src/client/IntlComponent.tsx:82 | the name group is a non-empty run of `\w` characters and the content group holds no `<` |
| Markup.MatchPrefixSound | src/client/IntlComponent.tsx:82 | the matched text is exactly the opening pseudo-tag, the content and the closing tag with the same name |
| Markup.MatchPrefixComplete | src/client/IntlComponent.tsx:82 | every pseudo-tag pair with a `\w+` name and `<`-free content at the start of a text is matched, with those groups and that length |
| Markup.MatchPrefixAtLt | src/client/IntlComponent.tsx:82 | a match can only start at `<` |
| Markup.FindFrom | src/client/IntlComponent.tsx:88 | `exec` from `lastIndex` reports a match at or after `lastIndex` that lies within the text |
| Markup.FindFromHere | src/client/IntlComponent.tsx:88 | the reported match is the one the pattern makes at the reported offset |
| Markup.FindFromLeftmost | src/client/IntlComponent.tsx:88 | no match starts between `lastIndex` and the reported offset, and with no report there is no match anywhere after `lastIndex` |
| Markup.FindFromSound | src/client/IntlComponent.tsx:88-99 | the text at a found match is the pseudo-tag pair of its two groups, and the groups are well formed |
| Markup.FindFromSkip | src/client/IntlComponent.tsx:88 | the search passes over a stretch without `<` without changing its answer |
| Markup.PiecesFromRoundTrip | src/client/IntlComponent.tsx:88-132 | the texts and elements found from a position on, spelled out again, give the text from that position on |
| Markup.PiecesRoundTrip | src/client/IntlComponent.tsx:88-132 | splitting a text into texts and elements loses nothing: spelled out again they give the text |
| Markup.PiecesOfUnparse | src/client/IntlComponent.tsx:88-132 | splitting the spelled-out text of well-formed pieces recovers the pieces, with adjacent texts joined |
| Markup.MergeKeepsTagged | src/client/IntlComponent.tsx:88-132 | joining adjacent texts keeps every element, in order |
| ScopePath.CollapseIndices | src/compiler/ASTTransformer.ts:108 | dropping the brackets of `[digits]` groups never lengthens a text and brings in no `.` |
| ScopePath.DotsToSlashes | src/compiler/ASTTransformer.ts:108 | every `.` becomes `/` and every other character stays |
| ScopePath.GenerateScopePath | src/compiler/ASTTransformer.ts:104-109 | the rewriter's scope path contains no `.` |
| ScopePath.CollapseRender | src/compiler/ASTTransformer.ts:108 | collapsing a rendered node location removes exactly its index brackets |
| ScopePath.GenerateScopePathOfLocation | src/compiler/ASTTransformer.ts:104-109 | the scope path of a Babel location `a.b[n].c` is its segments rendered `a`, `bn`, `c` and joined by `/` |
| ScopePath.DotsToSlashesIsSplitJoin | dist/parser/utils.js:35-40 | splitting on `.` and joining with `/` is replacing every `.` by `/` |
| ScopePath.SplitRender | dist/parser/utils.js:35 | splitting a rendered location on `.` yields one part per segment |
| ScopePath.FindIndex | dist/parser/utils.js:36 | `findIndex` gives the first position of the part, or -1 exactly when it is absent |
| ScopePath.GetRelativeScopePath | dist/parser/utils.js:33-44 | the extraction side's scope path contains no `.`, and outside the relative branch it equals the rewriter's scope path |
| ScopePath.RelativeScopePathAgrees | dist/parser/utils.js:37-43 | for every location under a statement `program.body[i]`, both passes compute the same scope path, the location's scope key |
| ScopePath.RelativeBranchDropsProgramBody | dist/parser/utils.js:37-40 | when a location starts `program.body.` the relative branch drops those two parts and renders the rest with collapsed indices and `/`, even when the rest holds another `body` field |
| Jsx.HasTranslatableText | src/compiler/ASTTransformer.ts:91-99 | an element has translatable text exactly when some direct child is a text node that is not all white space |
| Jsx.GetJSXElementName | src/compiler/ASTTransformer.ts:179-187 | the name is the identifier, or the member expression's property, and there is none exactly for a namespaced tag |
| Jsx.StatementLocation | src/compiler/ASTTransformer.ts:107 | a statement's location is rooted at `program` and steps into `body[i]` |
| ContentBuilder.PseudoTagName | dist/parser/utils.js:15-22 | the pseudo-tag name is the identifier or member property name, and "Unknown" for any other tag |
| ContentBuilder.BuildContentAppend | dist/parser/utils.js:6-29 | the content of two runs of children is the first's content followed by the second's |
| ContentBuilder.ChildContentEmpty | dist/parser/utils.js:8-13 | a child contributes nothing exactly when it is not an element and is either not text or blank text |
| ContentBuilder.IgnoredChild | dist/parser/utils.js:8-13 | expression containers and blank texts can be removed without changing the content |
| ContentBuilder.ChildPiecesText | dist/parser/utils.js:6-29 | the content is the trimmed texts and the pseudo-tag pairs of the element children, in child order, with each element's inner content built the same way |
| ContentBuilder.ContentSplitsIntoChildren | dist/parser/utils.js:6-29 | when names are `\w+` and inner contents hold no `<`, the runtime's split of the content gives back the children's pieces |
| ContentBuilder.ContentKeepsElements | dist/parser/utils.js:6-29 | under those conditions the runtime finds every element child, in order, with its name and content |
| Rewriter.VariableNames | src/compiler/ASTTransformer.ts:192-209 | the variables are exactly the identifiers used as `{name}` anywhere below the element, including attributes and nested elements, each once |
| Rewriter.VariableObject | src/compiler/ASTTransformer.ts:204-208 | the `$variables` object maps each name, in order, to the identifier of the same name |
| Rewriter.AsAttribute | src/compiler/ASTTransformer.ts:131-136 | `$as` is the expression `{Name}` exactly when the name starts with A-Z, and otherwise the string literal |
| Rewriter.Replacement | src/compiler/ASTTransformer.ts:126-170 | the replacement is a self-closing `IntlComponent` without children: the original attributes in order, then `$as`, `$filePath`, `$scopePath`, and `$variables` only when there are variables |
| Rewriter.EnsureImport | src/compiler/ASTTransformer.ts:123 | the import step lengthens the body by exactly the declarations it puts in front |
| Rewriter.AfterImport | src/compiler/ASTTransformer.ts:259-263 | after the import step, the shift of every later statement grows by what was put in front, and the flag is kept |
| Rewriter.Visit | src/compiler/ASTTransformer.ts:51-73 | an element with translatable text whose scope path, at the location the scan computes, is registered sets the flag; when it also has a name it becomes the self-closing, childless `IntlComponent` with its attributes first, then `$as`, `$filePath`, that scope path as `$scopePath`, and `$variables` when it uses variables; every other element keeps its tag, self-closing flag and the kinds of its attributes and children; every node comes back as a node of the same kind (a text node unchanged); the flag is never cleared |
| Rewriter.VisitAttributes | src/compiler/ASTTransformer.ts:51-73 | visiting attributes keeps their number and order, and each keeps its kind, its name and whether it has a value |
| Rewriter.VisitChildren | src/compiler/ASTTransformer.ts:51-73 | visiting children keeps their number; each child comes back as a node of the same kind, so only element children can become `IntlComponent` and text children stay as they are |
| Rewriter.ScanBody | src/compiler/ASTTransformer.ts:51-73 | the scan over the statements never clears the flag and keeps the body aligned with the statements; which files it changes is `RewriterProperties.TransformUnchangedExactly` |
| Rewriter.TransformCode | src/compiler/ASTTransformer.ts:28-48 | a failed parse, or a file with no entry or a falsy entry in the scope map, gives back the code unchanged |
| Rewriter.TransformWith | src/compiler/ASTTransformer.ts:28-86 | the same holds in both modes of the scan |
| RewriterProperties.VisitExact | src/compiler/ASTTransformer.ts:51-73 | before anything was put in front of the body, a subtree sets the flag when some element in it has translatable text and a registered scope path at its location, and otherwise comes back unchanged with the scan state untouched |
| RewriterProperties.VisitAttributesExact | src/compiler/ASTTransformer.ts:51-73 | the same for a run of attributes |
| RewriterProperties.VisitChildrenExact | src/compiler/ASTTransformer.ts:51-73 | the same for a run of children |
| RewriterProperties.ScanBodyExact | src/compiler/ASTTransformer.ts:51-73 | the scan of a parsed body sets the flag exactly when some code statement holds such an element, and otherwise leaves the body, the shift and the flag as they were |
| RewriterProperties.TransformUnchangedExactly | src/compiler/ASTTransformer.ts:43-86 | for a file with scope data, the original code comes back exactly when no element at its place in the parsed program has translatable text and a registered scope path; otherwise code is generated |
| RewriterProperties.IntendedVisitStable | src/compiler/ASTTransformer.ts:104-109 | with locations computed on the original body, what an element becomes does not depend on what the scan did before |
| RewriterProperties.IntendedStatementStable | src/compiler/ASTTransformer.ts:104-109 | the same for a whole statement |
| RewriterExamples.ScopeKeyAt | src/compiler/ASTTransformer.ts:104-109 | the element under statement `i` has the scope path `program/body{i}/expression` |
| RewriterExamples.StatementScopeKey | src/compiler/ASTTransformer.ts:104-109 | the JSX of an expression statement at any index has the scope path `program/body` + the index's decimal digits + `/expression` |
| RewriterExamples.ParagraphHasNoVariables | src/compiler/ASTTransformer.ts:192-209 | a paragraph holding only text has no variables |
| RewriterExamples.RewriteParagraph | src/compiler/ASTTransformer.ts:114-173 | a registered paragraph with text becomes an `IntlComponent` with `$as="p"`, and the scan imports the component and sets the flag |
| RewriterExamples.KeepParagraph | src/compiler/ASTTransformer.ts:61-63 | an unregistered paragraph is left as it is |
| RewriterExamples.FirstStatementRewritten | src/compiler/ASTTransformer.ts:259-263 | rewriting the first paragraph puts the import in front of the body |
| RewriterExamples.SecondStatementAsWritten | src/compiler/ASTTransformer.ts:104-109 | after the import, the second statement is looked up as `program/body2/expression` and stays unchanged |
| RewriterExamples.LaterStatementMissedAsWritten | src/compiler/ASTTransformer.ts:51-73 | as written, whatever the source text, a file whose two paragraphs are both registered gets only the first one rewritten |
| RewriterExamples.SecondStatementIntended | src/compiler/ASTTransformer.ts:107 | looked up at its original position, the second paragraph is rewritten |
| RewriterExamples.BothStatementsRewrittenIntended | src/compiler/ASTTransformer.ts:51-86 | with locations computed on the original body, whatever the source text, both registered paragraphs are rewritten and one import is added |
| RewriterExamples.VisitNamespaced | src/compiler/ASTTransformer.ts:114-120 | a registered `<svg:title>` with text is left in place, but the flag is set |
| RewriterExamples.NamespacedElementStillRegenerates | src/compiler/ASTTransformer.ts:66-86 | whatever the source text, a file whose only registered element has a namespaced tag is regenerated, although nothing in it changed |
| IntlImport.FirstIntlDeclaration | src/compiler/ASTTransformer.ts:217-219 | the position of the first declaration from "algebras-auto-intl/client", or -1 exactly when there is none |
| IntlImport.WithIntlImport | src/compiler/ASTTransformer.ts:214-265 | afterwards the first declaration from the module imports `IntlComponent`; a body whose first such declaration has it is unchanged; without such a declaration `import { IntlComponent }` is put in front; otherwise exactly that first declaration gets the specifier appended after its own; every other statement keeps its place |
| IntlImport.EnsureIntlComponentImport | src/compiler/ASTTransformer.ts:214-265 | the ensurer's pass over the declarations, with its flag, computes that body |
| IntlImport.WithIntlImportIdempotent | src/compiler/ASTTransformer.ts:214-265 | a second call changes nothing |
| IntlImport.SpecifierLocals | src/compiler/ASTTransformer.ts:221 | the local names of a declaration's specifiers, in order |
| IntlImport.DuplicateBindingAsWritten | src/compiler/ASTTransformer.ts:219-241 | a body that binds `IntlComponent` once, in a second declaration from the module, binds it twice after the ensurer |
| IntlImport.WithIntlImportOnce | src/compiler/ASTTransformer.ts:214-265 | the corrected ensurer: nothing changes when any declaration from the module already imports `IntlComponent`; otherwise the declaration is put in front, or the specifier appended to the first declaration from the module, as the written ensurer does |
| IntlImport.WithIntlImportOnceKeepsBindingsDistinct | src/compiler/ASTTransformer.ts:214-265 | the corrected ensurer never binds a name twice |
| Injector.InjectTranslated | src/transformer/Injector.ts:17-28 | the replacement is a self-closing `Translated` element with the single attribute `tKey` set to the scope, and no children |
| Injector.TKeyParts | src/transformer/Injector.ts:103 | for any file path, even one holding `:`, a key is the file path, then `::`, then the scope path, read back at the file path's length |
| Injector.TKeyInjective | src/transformer/Injector.ts:103 | for file paths without `:`, different files or scopes never share a key |
| Injector.Inject | src/transformer/Injector.ts:84-106 | a text node is replaced exactly when its trimmed value is non-empty, it has an enclosing element, and that closest element's scope path is a truthy scope of the file, the replacement's `tKey` being `filePath::scopePath`; an element keeps its tag, self-closing flag and numbers of attributes and children, and each of its text children becomes what that rule makes of it with the element itself as closest element; a fragment's text children are judged against the fragment's own closest element; nothing changes when nothing was replaced |
| Injector.InjectChildren | src/transformer/Injector.ts:84-106 | the children keep their number, and each text child becomes what the replacement rule makes of it under the given closest element |
| Injector.InjectExact | src/transformer/Injector.ts:84-106 | the traversal below a node replaces something exactly when some JSX text below it, taken with its closest enclosing element, is non-blank and that element's scope path is registered |
| Injector.InjectAttributesExact | src/transformer/Injector.ts:84-106 | the same two-sided statement for the attributes of an element |
| Injector.InjectChildrenExact | src/transformer/Injector.ts:84-106 | the same two-sided statement for a run of children |
| Injector.InjectEmbeddedExact | src/transformer/Injector.ts:84-106 | the same two-sided statement for the JSX embedded in other code |
| Injector.InjectBodyExact | src/transformer/Injector.ts:84-106 | the same two-sided statement for the statements of the program body, whose code has no enclosing element |
| Injector.InjectFileUnchangedExactly | src/transformer/Injector.ts:81-117 | one round returns the code unchanged exactly when no JSX text of the program is non-blank with a closest element whose scope path is registered for the file; otherwise the file is regenerated |
| Injector.InjectBody | src/transformer/Injector.ts:84-106 | the traversal over the statements keeps their number, leaves import declarations where and as they are, and changes nothing when nothing was replaced |
| Injector.InjectTranslatedStays | src/transformer/Injector.ts:17-28 | the replacement holds no text, so the traversal leaves it as it is |
| Injector.InjectTwice | src/transformer/Injector.ts:84-106 | traversing a traversed subtree again replaces nothing |
| Injector.InjectBodyTwice | src/transformer/Injector.ts:84-106 | traversing a traversed body again replaces nothing |
| Injector.WithTranslatedImport | src/transformer/Injector.ts:31-57 | afterwards some import from the `Translated` module binds `Translated` as its default; a body that already has one is unchanged, and otherwise exactly one default import is put at index 0 |
| Injector.EnsureImportTranslated | src/transformer/Injector.ts:31-57 | the scan over the declarations, which stops at the first match, computes that body |
| Injector.WithTranslatedImportIdempotent | src/transformer/Injector.ts:31-57 | a second call changes nothing |
| Injector.InjectFile | src/transformer/Injector.ts:81-117 | a regenerated file always imports `Translated` |
| Injector.ProjectOutput | src/transformer/Injector.ts:60-119 | the result is `undefined` exactly when the map has no files or the parse fails; otherwise it is the output for the first key alone |
| Injector.TransformProject | src/transformer/Injector.ts:60-119 | the loop over the keys, which goes on after a failed parse and returns in the first round that parses, computes that result |
| Injector.UnchangedWithoutReplacement | src/transformer/Injector.ts:108-110 | with nothing replaced, the original code is returned and no import is added |
| Injector.NoScopesNoChange | src/transformer/Injector.ts:82-100 | a file without a `scopes` object (`{}`) is never changed |
| Injector.NoneRegistered | src/transformer/Injector.ts:82-100 | without scopes, no text below any node is replaced |
| Injector.InjectFileSettles | src/transformer/Injector.ts:84-110 | injecting again into the statements it produced, at their positions, returns the code unchanged; when the file already imported `Translated`, injecting into the generated program returns the code unchanged |
| Substitution.SplitOnJoin | src/client/IntlComponent.tsx:76-77 | the stretches between the occurrences of a placeholder, joined by the placeholder, give back the text |
| Substitution.ReplaceAllJoin | src/client/IntlComponent.tsx:76-77 | a global `replace` joins those stretches with the value instead |
| Substitution.ReplaceAllSelf | src/client/IntlComponent.tsx:76-77 | replacing a placeholder by itself changes nothing |
| Substitution.ReplaceAllAbsent | src/client/IntlComponent.tsx:76-77 | a text without the placeholder is left as it is |
| Substitution.Substitute | src/client/IntlComponent.tsx:73-79 | the `forEach` over the variables replaces each variable's placeholder in entry order, and does nothing without variables |
| Substitution.SubstituteAllAbsent | src/client/IntlComponent.tsx:73-79 | content in which no variable's placeholder occurs comes through unchanged |
| Substitution.SubstituteAllEmpty | src/client/IntlComponent.tsx:73-79 | empty content stays empty |
| Substitution.LaterVariableSubstitutesValue | src/client/IntlComponent.tsx:75-78 | for any variables, a text that is the first variable's placeholder ends up as that variable's value with the later variables substituted into it |
| IntlComponent.Lower | src/client/IntlComponent.tsx:102 | `toLowerCase` lowers each character in place |
| IntlComponent.LowerTwice | src/client/IntlComponent.tsx:102 | lowering is idempotent |
| IntlComponent.RenderTag | src/client/IntlComponent.tsx:102-121 | the rendered tag is one of `br`, `code`, `strong`, `em` and `span` |
| IntlComponent.RenderTagIgnoresCase | src/client/IntlComponent.tsx:102-121 | names are compared after lowering: a known lowered name renders as itself, and any other name as `span` |
| IntlComponent.KeyInjective | src/client/IntlComponent.tsx:100 | different fragment counters give different keys |
| IntlComponent.ElementOf | src/client/IntlComponent.tsx:98-121 | a fragment's node has the given key and the rendered tag; it carries the content, except for `br`, which has none |
| IntlComponent.ParseStep | src/client/IntlComponent.tsx:88-124 | one round of the `exec` loop keeps the loop invariant: the nodes so far, followed by the nodes of what is still to be split, are the nodes of the whole text |
| IntlComponent.SplitFragments | src/client/IntlComponent.tsx:83-132 | the loop's nodes are, in order, the non-empty texts before each match, the element of each match numbered from 0, and the non-empty trailing text |
| IntlComponent.ParseContent | src/client/IntlComponent.tsx:66-135 | `parseContent` returns null for empty content, the substituted text when substitution emptied it, and otherwise the nodes of its pieces |
| IntlComponent.NodeKeysInOrder | src/client/IntlComponent.tsx:100 | with a builder that keys the j-th fragment by j, the keys of the nodes are consecutive, in match order |
| IntlComponent.KeysInOrder | src/client/IntlComponent.tsx:100 | the fragments are keyed `element-0`, `element-1`, … in the order they were found |
| IntlComponent.KeysDistinct | src/client/IntlComponent.tsx:100 | no two nodes of a result share a key |
| IntlComponent.ParseContentShape | src/client/IntlComponent.tsx:70-134 | the result is null exactly for empty content; a string only when substitution emptied the content; an array exactly when the substituted text is non-empty |
| IntlComponent.NoFragment | src/client/IntlComponent.tsx:127-134 | substituted text without any fragment comes back as a one-element array holding that text |
| IntlComponent.RendersBuiltContent | src/client/IntlComponent.tsx:66-135 | content built by the extraction side from well-formed children is rendered as the nodes of those children's pieces |
| IntlComponent.CurrentLocale | src/client/IntlComponent.tsx:50-63 | the locale is never empty: the prop when it is non-empty, else the URL locale when non-empty, else the saved locale when non-empty, else "en" |
| IntlComponent.TranslatedContentFallsBack | src/client/IntlComponent.tsx:161-202 | once loaded, the component parses the loader's translation for the locale, or else its translation for "en", or shows nothing |
| IntlComponent.RenderChild | src/client/IntlComponent.tsx:204-215 | the translated content is shown only when not loading and when it is a non-empty string or an array |
| IntlComponent.ChildAfterLoadShows | src/client/IntlComponent.tsx:151-215 | after loading, content is shown exactly when the chosen text exists and substitution leaves something of it, and otherwise "Translation not found" |
| IntlComponentFactory.ParseText | src/client/IntlComponent.ts:65-84 | `parseContent` returns "" for empty content and otherwise the substituted text |
| IntlComponentFactory.ParsedTextVerbatim | src/client/IntlComponent.ts:71-83 | without variables, or when none of their placeholders occurs, the text comes back as it is, with its fragments |
| IntlComponentFactory.ComponentsAgree | src/client/IntlComponent.ts:65-84 | the React component renders the pieces of exactly the text this component returns, and those pieces spell out that text |
| IntlComponentFactory.ChosenContent | src/client/IntlComponent.ts:121-122 | the locale's text when it is non-empty, else the "en" text |
| IntlComponentFactory.CallbackFallsBack | src/client/IntlComponent.ts:102-123 | the callback parses the loader's translation for the locale or else for "en" |
| IntlComponentFactory.SameChoice | src/client/IntlComponent.ts:102-123 | both components pick the same text once the dictionary is loaded |
| IntlComponentFactory.SetLocale | src/client/IntlComponent.ts:146-152 | in a browser the locale is saved, the URL is left alone and the page reloads; outside one nothing happens and nothing reloads |
| IntlComponentFactory.SetLocaleReadBack | src/client/IntlComponent.ts:146-152 | after `setLocale` the page reloads, and a component without a locale prop reads the locale back, unless the URL names one |
| IntlComponentFactory.GetAvailableLocales | src/client/IntlComponent.ts:154-166 | ["en"] without a dictionary, otherwise the locale keys of all entries, each once |
| DictionaryLoader.LocaleOrDefault | src/integration/DictionaryLoader.ts:56 | a missing locale argument is "en" |
| DictionaryLoader.EntryText | src/integration/DictionaryLoader.ts:77-85 | an entry has a text for the locale exactly when one is stored and it is non-empty |
| DictionaryLoader.Translation | src/integration/DictionaryLoader.ts:53-86 | a found translation is non-empty, and is found only when the dictionary and the file exist |
| DictionaryLoader.CollectFileTranslationsGet | src/integration/DictionaryLoader.ts:121-128 | the collected translations map exactly the scope paths with a non-empty text for the locale to that text |
| DictionaryLoader.FileTranslationsAgree | src/integration/DictionaryLoader.ts:111-131 | `getFileTranslations` and `getTranslation` agree on every scope path of a file |
| DictionaryLoader.FileTranslationsLoop | src/integration/DictionaryLoader.ts:121-128 | the loop over the entries writes one property per non-empty text, giving the collected translations |
| DictionaryLoader.EntryLocalesHas | src/integration/DictionaryLoader.ts:98-101 | the locale keys listed for a file's entries are those of some entry's content |
| DictionaryLoader.FileLocalesHas | src/integration/DictionaryLoader.ts:97-103 | the locale keys listed for all files are those of some entry of some file |
| DictionaryLoader.AvailableLocalesExactly | src/integration/DictionaryLoader.ts:91-106 | every locale key of every entry is reported, each once, and nothing else |
| DictionaryLoader.DedupFromAppend | src/integration/DictionaryLoader.ts:95-103 | adding two lists to a `Set` one after the other is adding their concatenation |
| DictionaryLoader.AddAll | src/integration/DictionaryLoader.ts:99-101 | one `add` per key, in order, gives the `Set` with those keys added |
| DictionaryLoader.CollectLocales | src/integration/DictionaryLoader.ts:95-105 | the nested loops give each locale key once, in the order first seen |
| DictionaryLoader.Loader.constructor | src/integration/DictionaryLoader.ts:16-19 | a new loader has no dictionary and no load started, and its path defaults to "./intl/dictionary.js" |
| DictionaryLoader.Loader.LoadDictionary | src/integration/DictionaryLoader.ts:24-36 | a loaded dictionary is returned without loading again; a started load is returned as it settled, and one that gave null is never retried; the first call stores its result |
| DictionaryLoader.Loader.GetTranslation | src/integration/DictionaryLoader.ts:53-86 | the translation for the locale ("en" by default) in the loaded dictionary |
| DictionaryLoader.Loader.HasTranslation | src/integration/DictionaryLoader.ts:136-143 | true exactly when `getTranslation` finds a text |
| DictionaryLoader.Loader.GetAvailableLocales | src/integration/DictionaryLoader.ts:91-106 | [] without a dictionary, otherwise each locale key once |
| DictionaryLoader.Loader.GetFileTranslations | src/integration/DictionaryLoader.ts:111-131 | {} without a dictionary or file, otherwise the non-empty texts for the locale by scope path |
| LocaleSwitcher.InitialLocale | src/client/LocaleSwitcher.ts:25-42 | the initial locale is listed or is the default; a non-empty listed URL locale wins; otherwise a non-empty listed saved locale; otherwise, and outside a browser, the default |
| LocaleSwitcher.InitialLocaleIgnoresUnlisted | src/client/LocaleSwitcher.ts:30-41 | unlisted URL and saved locales are ignored in favour of the default, which is not checked against the list |
| LocaleSwitcher.Persisted | src/client/LocaleSwitcher.ts:56-63 | an accepted locale is saved and put in the URL |
| LocaleSwitcher.PersistedReadBack | src/client/LocaleSwitcher.ts:25-63 | a switcher created after `setLocale` starts with the locale that was set |
| LocaleSwitcher.Switcher.constructor | src/client/LocaleSwitcher.ts:14-23 | the list is the given array, or a new ["en","es","fr","de"]; the current locale is the initial locale; the callback is kept |
| LocaleSwitcher.Switcher.SetLocale | src/client/LocaleSwitcher.ts:44-73 | an unlisted locale changes nothing; a listed one becomes current and is persisted in a browser; the callback is called with it exactly when there is one, and otherwise the page reloads in a browser |
| LocaleSwitcher.Switcher.GetLocale | src/client/LocaleSwitcher.ts:75-77 | returns the current locale |
| LocaleSwitcher.Switcher.GetAvailableLocales | src/client/LocaleSwitcher.ts:79-81 | returns a new array with the list's elements |
| LocaleSwitcher.CopyIsIndependent | src/client/LocaleSwitcher.ts:79-81 | writing into the returned copy leaves the switcher's list as it was |

## Left out

- Babel's `parse`, `traverse` and `generate`: parsing is an oracle given with the code, and output is a tree or the unchanged code. `getPathLocation` is the rendering of a segment list. Console warnings are left out.
- The webpack loaders, the Next.js plugin and its process scheduling, the React providers and server dictionary reading: they are file system, process and framework glue.
- React hooks and state in `src/client/IntlComponent.tsx`. The effect's outcome is the `loading`/`error`/dictionary values that `ChildAfterLoad` takes. The module-level dictionary cache and promise of both components are left out, and so is the dynamic `import` of the dictionary, which is a parameter.
- The window, `localStorage`, `history.replaceState` and `location.reload` calls are `Window` values, the switcher's `Effect` results and the reload flag of `IntlComponentFactory.SetLocale`. `createSwitcherHTML` builds DOM markup and is left out.
- The object returned by `createIntlComponent`'s component in `src/client/IntlComponent.ts` (the fixed text "Loading translation...") is left out: it does not depend on the lookup, whose result is only written to the console with `console.log`.
- DictionaryLoader.Loader.LoadDictionary: a call made while the first load is still pending is modelled as arriving after it settled; such a caller gets the same settled value, so nothing it can observe differs.
- `onLocaleChange` is modelled by whether it was given; the function itself is not called.
- Substitution.Substitute: `$` patterns in a value are taken literally, and variable keys are assumed free of regular-expression metacharacters. Values are strings: `String(value)` of other types is not modelled.
- IntlComponent.Lower: only ASCII letters are lowered; the fragment pattern's names are `\w` characters, so this covers every name it can match.
- `transformProject`'s `options.filePath` is unused by the source and does not appear in the model.
- InjectFileSettles: injecting into the generated program of a file that did not import `Translated` is not claimed to change nothing. The import put in front moves every statement down by one, and a text's scope path at its new location may be registered.
- ScanBody: its contract does not say statement by statement what the returned body holds; it states the flag and the alignment, and `RewriterProperties.TransformUnchangedExactly` states exactly when a file changes.
- Injector.TKeyInjective: holds only for file paths without ':'; the source does not escape the separator.
- A Babel traversal that mutates the tree while visiting it is modelled as a recursive function that rebuilds the tree. `path.replaceWith` re-queues the new node; the model visits the replacement's attributes (rewriter) or nothing (injector, whose replacement holds no text) in its place.

## Findings

| source | as written | input that shows it | evidently intended | confidence | as-written member | corrected member |
|---|---|---|---|---|---|---|
| src/compiler/ASTTransformer.ts:259-263 | the import is put in front of the body in the middle of the scan, so every later statement's location moves down by one | two expression statements `<p>…</p>;`, each a registered `<p>` with text, no import: the second is looked up as `program/body2/expression` and is not rewritten | scope paths computed on the body the extraction pass saw, so every registered element is rewritten | not executed | RewriterExamples.LaterStatementMissedAsWritten | RewriterExamples.BothStatementsRewrittenIntended |
| src/compiler/ASTTransformer.ts:219-241 | only the first declaration from "algebras-auto-intl/client" is checked; if it lacks `IntlComponent`, the specifier is added there even when a later declaration from the module has it | `import { setLocale } from "algebras-auto-intl/client"; import { IntlComponent } from "algebras-auto-intl/client";` ends with `IntlComponent` bound twice | add the specifier only when no declaration from the module imports it | not executed | IntlImport.DuplicateBindingAsWritten | IntlImport.WithIntlImportOnceKeepsBindingsDistinct |
