// Making sure a rewritten file imports the runtime component:
// `import { IntlComponent } from "algebras-auto-intl/client"`
// (src/compiler/ASTTransformer.ts, ensureIntlComponentImport).

module IntlImport {
  import opened Text
  import opened Jsx

  const IntlModule := "algebras-auto-intl/client"

  /** `IntlComponent as IntlComponent`. */
  const IntlSpecifier := ImportSpecifier(ExportIdentifier("IntlComponent"), "IntlComponent")

  /** A named specifier importing `IntlComponent` under an identifier (not a string name). */
  predicate NamesIntlComponent(sp: Specifier)
  {
    sp.ImportSpecifier? && sp.imported.ExportIdentifier? && sp.imported.name == "IntlComponent"
  }

  predicate FromIntlModule(st: Statement)
  {
    st.ImportDeclaration? && st.source == IntlModule
  }

  predicate ImportsIntlComponent(st: Statement)
  {
    FromIntlModule(st) && exists k :: 0 <= k < |st.specifiers| && NamesIntlComponent(st.specifiers[k])
  }

  /** Position of the first declaration importing from the runtime module, or -1. */
  function FirstIntlDeclaration(body: seq<Statement>): (i: int)
    ensures -1 <= i < |body|
    ensures i >= 0 ==> FromIntlModule(body[i]) && forall j :: 0 <= j < i ==> !FromIntlModule(body[j])
    ensures i == -1 <==> forall j :: 0 <= j < |body| ==> !FromIntlModule(body[j])
  {
    if body == [] then -1
    else if FromIntlModule(body[0]) then 0
    else
      var i := FirstIntlDeclaration(body[1..]);
      assert forall j :: 1 <= j < |body| ==> body[j] == body[1..][j - 1];
      if i == -1 then -1 else i + 1
  }

  /** How many statements the import ensurer puts in front of the body: one when no declaration is there. */
  function Prepended(body: seq<Statement>): nat
  {
    if FirstIntlDeclaration(body) == -1 then 1 else 0
  }

  /**
   * The body after `ensureIntlComponentImport`. Only the first declaration from the
   * runtime module is examined: once it has been looked at, the import counts as present.
   */
  function WithIntlImport(body: seq<Statement>): (r: seq<Statement>)
    ensures |r| == |body| + Prepended(body)
    ensures FirstIntlDeclaration(r) >= 0 && ImportsIntlComponent(r[FirstIntlDeclaration(r)])
    ensures FirstIntlDeclaration(body) >= 0 && ImportsIntlComponent(body[FirstIntlDeclaration(body)]) ==> r == body
    ensures forall k :: 0 <= k < |body| && !FromIntlModule(body[k]) ==> r[k + Prepended(body)] == body[k]
    ensures FirstIntlDeclaration(body) == -1 ==> r == [ImportDeclaration([IntlSpecifier], IntlModule)] + body
    ensures var i := FirstIntlDeclaration(body);
            i >= 0 && !ImportsIntlComponent(body[i]) ==>
              r == body[i := ImportDeclaration(body[i].specifiers + [IntlSpecifier], IntlModule)]
  {
    var i := FirstIntlDeclaration(body);
    if i == -1 then
      var r := [ImportDeclaration([IntlSpecifier], IntlModule)] + body;
      assert NamesIntlComponent(r[0].specifiers[0]);
      assert FirstIntlDeclaration(r) == 0;
      r
    else if ImportsIntlComponent(body[i]) then body
    else
      var specifiers := body[i].specifiers + [IntlSpecifier];
      var r := body[i := ImportDeclaration(specifiers, IntlModule)];
      assert NamesIntlComponent(specifiers[|specifiers| - 1]);
      assert FirstIntlDeclaration(r) == i by {
        assert forall j :: 0 <= j < i ==> r[j] == body[j];
        FirstIntlDeclarationAt(r, i);
      }
      r
  }

  lemma FirstIntlDeclarationAt(body: seq<Statement>, i: nat)
    requires i < |body| && FromIntlModule(body[i])
    requires forall j :: 0 <= j < i ==> !FromIntlModule(body[j])
    ensures FirstIntlDeclaration(body) == i
  {
  }

  /** The ensurer, as the source writes it: one pass over the declarations with a `hasImport` flag. */
  method EnsureIntlComponentImport(body: seq<Statement>) returns (r: seq<Statement>)
    ensures r == WithIntlImport(body)
  {
    var hasImport := false;
    r := body;
    for i := 0 to |body|
      invariant hasImport <==> 0 <= FirstIntlDeclaration(body) < i
      invariant r == if hasImport then WithIntlImport(body) else body
    {
      if FromIntlModule(body[i]) {
        var specifiers := body[i].specifiers;
        var found := false;
        for j := 0 to |specifiers|
          invariant found <==> exists k :: 0 <= k < j && NamesIntlComponent(specifiers[k])
        {
          if NamesIntlComponent(specifiers[j]) {
            found := true;
            break;
          }
        }
        if found {
          hasImport := true;
        }
        if !hasImport {
          r := r[i := ImportDeclaration(specifiers + [IntlSpecifier], body[i].source)];
          hasImport := true;
        }
      }
    }
    if !hasImport {
      r := [ImportDeclaration([IntlSpecifier], IntlModule)] + r;
    }
  }

  /** A second call changes nothing. */
  lemma WithIntlImportIdempotent(body: seq<Statement>)
    ensures WithIntlImport(WithIntlImport(body)) == WithIntlImport(body)
  {
  }

  // ---------------------------------------------------------------------------
  // Local bindings: the as-written ensurer can bind `IntlComponent` twice.

  function SpecifierLocals(specifiers: seq<Specifier>): (ls: seq<string>)
    ensures |ls| == |specifiers|
    ensures forall k :: 0 <= k < |specifiers| ==> ls[k] == specifiers[k].local
  {
    if specifiers == [] then [] else [specifiers[0].local] + SpecifierLocals(specifiers[1..])
  }

  /** The names the import declarations of a body bind, in order. */
  function Bindings(body: seq<Statement>): seq<string>
  {
    if body == [] then []
    else if body[0].ImportDeclaration? then SpecifierLocals(body[0].specifiers) + Bindings(body[1..])
    else Bindings(body[1..])
  }

  /**
   * As written: when the first declaration from the runtime module lacks the
   * specifier but a later one has it, the specifier is added anyway, and the
   * module then binds `IntlComponent` twice.
   */
  lemma DuplicateBindingAsWritten()
    ensures var body := [ImportDeclaration([ImportSpecifier(ExportIdentifier("setLocale"), "setLocale")], IntlModule),
                         ImportDeclaration([IntlSpecifier], IntlModule)];
            NoDuplicates(Bindings(body)) && !NoDuplicates(Bindings(WithIntlImport(body)))
  {
    var body := [ImportDeclaration([ImportSpecifier(ExportIdentifier("setLocale"), "setLocale")], IntlModule),
                 ImportDeclaration([IntlSpecifier], IntlModule)];
    assert !ImportsIntlComponent(body[0]);
    var r := WithIntlImport(body);
    assert r[0] == ImportDeclaration([ImportSpecifier(ExportIdentifier("setLocale"), "setLocale"), IntlSpecifier], IntlModule);
    assert r[1..] == body[1..];
    assert Bindings(body[1..]) == ["IntlComponent"] by {
      assert Bindings(body[1..][1..]) == [];
    }
    assert Bindings(body) == ["setLocale"] + ["IntlComponent"];
    assert Bindings(r) == ["setLocale", "IntlComponent"] + ["IntlComponent"];
    assert Bindings(r)[1] == Bindings(r)[2];
  }

  /** Some declaration from the runtime module already imports `IntlComponent`. */
  predicate AnyImportsIntlComponent(body: seq<Statement>)
  {
    exists i :: 0 <= i < |body| && ImportsIntlComponent(body[i])
  }

  /** The ensurer as intended: add the specifier only when no declaration from the module has it. */
  function WithIntlImportOnce(body: seq<Statement>): (r: seq<Statement>)
    ensures |r| == |body| + Prepended(body)
    ensures AnyImportsIntlComponent(r)
    ensures AnyImportsIntlComponent(body) ==> r == body
    ensures forall k :: 0 <= k < |body| && !FromIntlModule(body[k]) ==> r[k + Prepended(body)] == body[k]
    ensures FirstIntlDeclaration(body) == -1 ==> r == [ImportDeclaration([IntlSpecifier], IntlModule)] + body
    ensures var i := FirstIntlDeclaration(body);
            i >= 0 && !AnyImportsIntlComponent(body) ==>
              r == body[i := ImportDeclaration(body[i].specifiers + [IntlSpecifier], IntlModule)]
  {
    if AnyImportsIntlComponent(body) then
      assert FirstIntlDeclaration(body) >= 0;
      body
    else
      var r := WithIntlImport(body);
      assert ImportsIntlComponent(r[FirstIntlDeclaration(r)]);
      r
  }

  /** Where a body binds `IntlComponent`, it is only through named imports from the runtime module. */
  predicate IntlBindingsFromModule(body: seq<Statement>)
  {
    forall i, k ::
      (0 <= i < |body| && body[i].ImportDeclaration? && 0 <= k < |body[i].specifiers|
       && body[i].specifiers[k].local == "IntlComponent")
      ==> FromIntlModule(body[i]) && NamesIntlComponent(body[i].specifiers[k])
  }

  lemma {:induction false} BindingsAppend(body: seq<Statement>, i: nat, sp: Specifier)
    requires i < |body| && body[i].ImportDeclaration?
    ensures var r := body[i := ImportDeclaration(body[i].specifiers + [sp], body[i].source)];
            multiset(Bindings(r)) == multiset(Bindings(body)) + multiset{sp.local}
  {
    var r := body[i := ImportDeclaration(body[i].specifiers + [sp], body[i].source)];
    if i == 0 {
      assert r[1..] == body[1..];
      assert SpecifierLocals(body[0].specifiers + [sp]) == SpecifierLocals(body[0].specifiers) + [sp.local];
    } else {
      BindingsAppend(body[1..], i - 1, sp);
      assert r[1..] == body[1..][i - 1 := ImportDeclaration(body[i].specifiers + [sp], body[i].source)];
    }
  }

  lemma {:induction false} BindingsOfName(body: seq<Statement>, name: string)
    requires forall i, k :: 0 <= i < |body| && body[i].ImportDeclaration? && 0 <= k < |body[i].specifiers|
               ==> body[i].specifiers[k].local != name
    ensures name !in Bindings(body)
  {
    if body != [] {
      forall i, k | 0 <= i < |body| - 1 && body[1..][i].ImportDeclaration? && 0 <= k < |body[1..][i].specifiers|
        ensures body[1..][i].specifiers[k].local != name
      {
        assert body[1..][i] == body[i + 1];
      }
      BindingsOfName(body[1..], name);
      if body[0].ImportDeclaration? {
        assert forall k :: 0 <= k < |body[0].specifiers| ==> body[0].specifiers[k].local != name;
      }
    }
  }

  lemma NoDuplicatesMultiset(xs: seq<string>, x: string)
    requires NoDuplicates(xs) && x !in xs
    ensures NoDuplicates(xs + [x])
  {
  }

  lemma {:induction false} NoDuplicatesByMultiset(xs: seq<string>, ys: seq<string>)
    requires NoDuplicates(xs) && multiset(ys) == multiset(xs)
    ensures NoDuplicates(ys)
  {
    if !NoDuplicates(ys) {
      var i, j :| 0 <= i < j < |ys| && ys[i] == ys[j];
      assert ys == ys[..i] + [ys[i]] + ys[i + 1..j] + [ys[j]] + ys[j + 1..];
      assert multiset(ys)[ys[i]] >= 2;
      CountAtMostOne(xs, ys[i]);
    }
  }

  lemma {:induction false} CountAtMostOne(xs: seq<string>, x: string)
    requires NoDuplicates(xs)
    ensures multiset(xs)[x] <= 1
  {
    if xs != [] {
      assert xs == [xs[0]] + xs[1..];
      CountAtMostOne(xs[1..], x);
      if xs[0] == x {
        assert x !in xs[1..];
      }
    }
  }

  /** The intended ensurer never introduces a second binding of `IntlComponent`. */
  lemma WithIntlImportOnceKeepsBindingsDistinct(body: seq<Statement>)
    requires NoDuplicates(Bindings(body)) && IntlBindingsFromModule(body)
    ensures NoDuplicates(Bindings(WithIntlImportOnce(body)))
  {
    if !AnyImportsIntlComponent(body) {
      BindingsOfName(body, "IntlComponent");
      var i := FirstIntlDeclaration(body);
      var r := WithIntlImportOnce(body);
      if i == -1 {
        assert r == [ImportDeclaration([IntlSpecifier], IntlModule)] + body;
        assert r[1..] == body;
        assert Bindings(r) == ["IntlComponent"] + Bindings(body);
      } else {
        BindingsAppend(body, i, IntlSpecifier);
        NoDuplicatesMultiset(Bindings(body), "IntlComponent");
        assert multiset(Bindings(r)) == multiset(Bindings(body) + ["IntlComponent"]);
        NoDuplicatesByMultiset(Bindings(body) + ["IntlComponent"], Bindings(r));
      }
    }
  }
}
