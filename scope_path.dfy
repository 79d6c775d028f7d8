// Scope paths: the key under which a JSX element's translation is registered.
// Babel's `getPathLocation` names a node by the chain of keys from the
// program root ("program.body[1].declaration.body.body[0].argument"); the
// rewriter turns that string into "program/body1/declaration/body/body0/argument",
// and the extraction side has its own variant of the same transformation.

module ScopePath {
  import opened Text

  /** One step of a Babel node path: a plain key, or a position in a list-valued key. */
  datatype Segment = Field(key: string) | Item(key: string, index: nat)

  type Location = seq<Segment>

  /** Babel keys are identifiers: no '.', '[' or '/' in them. */
  predicate PlainKey(k: string)
  {
    '.' !in k && '[' !in k && '/' !in k
  }

  predicate PlainKeys(loc: Location)
  {
    forall i :: 0 <= i < |loc| ==> PlainKey(loc[i].key)
  }

  /** A segment as text: `key`, or `key[n]` (bracketed) or `keyn` (collapsed) for a list position. */
  function SegmentText(seg: Segment, bracketed: bool): string
  {
    match seg
    case Field(k) => k
    case Item(k, n) => if bracketed then k + "[" + NatToString(n) + "]" else k + NatToString(n)
  }

  function SegmentTexts(loc: Location, bracketed: bool): (ts: seq<string>)
    ensures |ts| == |loc|
    ensures forall i :: 0 <= i < |loc| ==> ts[i] == SegmentText(loc[i], bracketed)
  {
    if loc == [] then [] else [SegmentText(loc[0], bracketed)] + SegmentTexts(loc[1..], bracketed)
  }

  function RenderWith(loc: Location, sep: char, bracketed: bool): string
  {
    if |loc| == 0 then []
    else if |loc| == 1 then SegmentText(loc[0], bracketed)
    else SegmentText(loc[0], bracketed) + [sep] + RenderWith(loc[1..], sep, bracketed)
  }

  /** The string Babel's `getPathLocation` produces for a node path. */
  function PathLocation(loc: Location): string
  {
    RenderWith(loc, '.', true)
  }

  /** The scope key a node path is meant to have: collapsed segments joined by '/'. */
  function ScopeKey(loc: Location): string
  {
    RenderWith(loc, '/', false)
  }

  /** Length of the run of decimal digits at the start of `s`. */
  function LeadingDigits(s: string): (n: nat)
    ensures n <= |s| && AllDigits(s[..n])
    ensures n == |s| || !IsDigit(s[n])
  {
    if s != [] && IsDigit(s[0]) then 1 + LeadingDigits(s[1..]) else 0
  }

  /** Length of a `[digits]` group at the start of `s` (what `/\[(\d+)\]/` matches there), or 0. */
  function IndexGroup(s: string): (n: nat)
    ensures n == 0 || (3 <= n <= |s| && s[0] == '[' && s[n - 1] == ']' && AllDigits(s[1..n - 1]))
  {
    if s != [] && s[0] == '[' then
      var d := LeadingDigits(s[1..]);
      if d > 0 && d + 1 < |s| && s[d + 1] == ']' then
        assert s[1..d + 1] == s[1..][..d];
        d + 2
      else 0
    else 0
  }

  /** `s.replace(/\[(\d+)\]/g, "$1")`: every `[digits]` group, scanned left to right, loses its brackets. */
  function CollapseIndices(s: string): (r: string)
    ensures |r| <= |s|
    ensures '.' !in s ==> '.' !in r
    decreases |s|
  {
    if s == [] then []
    else
      var n := IndexGroup(s);
      if n > 0 then
        assert '.' !in s ==> '.' !in s[1..n - 1] && '.' !in s[n..];
        s[1..n - 1] + CollapseIndices(s[n..])
      else
        assert '.' !in s ==> '.' !in s[1..];
        [s[0]] + CollapseIndices(s[1..])
  }

  /** `s.replace(/\./g, "/")`. */
  function DotsToSlashes(s: string): (r: string)
    ensures |r| == |s| && '.' !in r
    ensures forall i :: 0 <= i < |s| && s[i] != '.' ==> r[i] == s[i]
  {
    seq(|s|, i requires 0 <= i < |s| => if s[i] == '.' then '/' else s[i])
  }

  /** The rewriter's scope path for a location string (src/compiler/ASTTransformer.ts, generateScopePath). */
  function GenerateScopePath(location: string): (r: string)
    ensures '.' !in r
  {
    DotsToSlashes(CollapseIndices(location))
  }

  /** `Array.prototype.findIndex` for equality: the first position of `x`, or -1. */
  function FindIndex(parts: seq<string>, x: string): (i: int)
    ensures -1 <= i < |parts|
    ensures i >= 0 ==> parts[i] == x && forall j :: 0 <= j < i ==> parts[j] != x
    ensures i == -1 <==> x !in parts
  {
    if parts == [] then -1
    else if parts[0] == x then 0
    else
      var i := FindIndex(parts[1..], x);
      if i == -1 then -1 else i + 1
  }

  /** Whether the extraction side takes its relative branch: the first "body" part follows "program". */
  predicate TakesRelativeBranch(parts: seq<string>)
  {
    var b := FindIndex(parts, "body");
    b >= 1 && parts[b - 1] == "program"
  }

  /** The extraction side's scope path (dist/parser/utils.js, getRelativeScopePath). */
  function GetRelativeScopePath(fullPath: string): (r: string)
    ensures '.' !in r
    ensures !TakesRelativeBranch(Split(fullPath, '.')) ==> r == GenerateScopePath(fullPath)
  {
    var parts := Split(fullPath, '.');
    var bodyIndex := FindIndex(parts, "body");
    if bodyIndex >= 1 && parts[bodyIndex - 1] == "program" then
      var joined := Join(parts[bodyIndex + 1..], "/");
      JoinAvoids(parts[bodyIndex + 1..], "/", '.');
      CollapseIndices(joined)
    else
      GenerateScopePath(fullPath)
  }

  // ---------------------------------------------------------------------------
  // Lemmas

  lemma {:induction false} JoinAvoids(parts: seq<string>, sep: string, c: char)
    requires c !in sep
    requires forall i :: 0 <= i < |parts| ==> c !in parts[i]
    ensures c !in Join(parts, sep)
  {
    if |parts| > 1 {
      JoinAvoids(parts[1..], sep, c);
    }
  }

  lemma {:induction false} LeadingDigitsOf(ds: string, rest: string)
    requires AllDigits(ds)
    requires rest == [] || !IsDigit(rest[0])
    ensures LeadingDigits(ds + rest) == |ds|
  {
    if ds != [] {
      assert (ds + rest)[1..] == ds[1..] + rest;
      LeadingDigitsOf(ds[1..], rest);
    } else {
      assert ds + rest == rest;
    }
  }

  /** A prefix without '[' passes through the collapse unchanged. */
  lemma {:induction false} CollapseNoBracket(a: string, b: string)
    requires '[' !in a
    ensures CollapseIndices(a + b) == a + CollapseIndices(b)
  {
    if a != [] {
      assert (a + b)[0] == a[0];
      assert (a + b)[1..] == a[1..] + b;
      CollapseNoBracket(a[1..], b);
      assert [a[0]] + a[1..] == a;
    } else {
      assert a + b == b;
    }
  }

  /** A leading `[digits]` group collapses to its digits. */
  lemma CollapseGroup(ds: string, b: string)
    requires ds != [] && AllDigits(ds)
    ensures CollapseIndices("[" + ds + "]" + b) == ds + CollapseIndices(b)
  {
    var s := "[" + ds + "]" + b;
    assert s[1..] == ds + ("]" + b);
    LeadingDigitsOf(ds, "]" + b);
    assert s[|ds| + 1] == ']';
    assert IndexGroup(s) == |ds| + 2;
    assert s[1..|ds| + 1] == ds;
    assert s[|ds| + 2..] == b;
  }

  lemma CollapseSegment(seg: Segment, rest: string)
    requires PlainKey(seg.key)
    ensures CollapseIndices(SegmentText(seg, true) + rest) == SegmentText(seg, false) + CollapseIndices(rest)
  {
    match seg
    case Field(k) =>
      CollapseNoBracket(k, rest);
    case Item(k, n) =>
      var ds := NatToString(n);
      assert SegmentText(seg, true) + rest == k + ("[" + ds + "]" + rest);
      CollapseNoBracket(k, "[" + ds + "]" + rest);
      CollapseGroup(ds, rest);
  }

  /** Collapsing a rendered location removes exactly the index brackets. */
  lemma {:induction false} CollapseRender(loc: Location, sep: char)
    requires PlainKeys(loc) && sep != '['
    ensures CollapseIndices(RenderWith(loc, sep, true)) == RenderWith(loc, sep, false)
  {
    if |loc| == 1 {
      CollapseSegment(loc[0], []);
      assert SegmentText(loc[0], true) + [] == SegmentText(loc[0], true);
      assert SegmentText(loc[0], false) + [] == SegmentText(loc[0], false);
    } else if |loc| > 1 {
      assert PlainKeys(loc[1..]) by {
        forall i | 0 <= i < |loc| - 1 ensures PlainKey(loc[1..][i].key) {
          assert loc[1..][i] == loc[i + 1];
        }
      }
      CollapseRender(loc[1..], sep);
      CollapseRenderStep(loc[0], sep, RenderWith(loc[1..], sep, true));
    }
  }

  lemma CollapseRenderStep(seg: Segment, sep: char, tail: string)
    requires PlainKey(seg.key) && sep != '['
    ensures CollapseIndices(SegmentText(seg, true) + [sep] + tail)
         == SegmentText(seg, false) + [sep] + CollapseIndices(tail)
  {
    CollapseSegment(seg, [sep] + tail);
    CollapseNoBracket([sep], tail);
    CollapseJoin(SegmentText(seg, true), SegmentText(seg, false), sep, tail);
  }

  /** The step of `CollapseRenderStep`, stated for any texts. */
  lemma CollapseJoin(bracketed: string, collapsed: string, sep: char, tail: string)
    requires CollapseIndices(bracketed + ([sep] + tail)) == collapsed + CollapseIndices([sep] + tail)
    requires CollapseIndices([sep] + tail) == [sep] + CollapseIndices(tail)
    ensures CollapseIndices(bracketed + [sep] + tail) == collapsed + [sep] + CollapseIndices(tail)
  {
    Assoc(bracketed, [sep], tail);
    Assoc(collapsed, [sep], CollapseIndices(tail));
  }

  lemma Assoc(a: string, b: string, c: string)
    ensures a + b + c == a + (b + c)
  {
  }

  lemma DotsToSlashesConcat(a: string, b: string)
    ensures DotsToSlashes(a + b) == DotsToSlashes(a) + DotsToSlashes(b)
  {
  }

  lemma DotsToSlashesNoDot(a: string)
    requires '.' !in a
    ensures DotsToSlashes(a) == a
  {
  }

  lemma {:induction false} DotsToSlashesRender(loc: Location)
    requires PlainKeys(loc)
    ensures DotsToSlashes(RenderWith(loc, '.', false)) == RenderWith(loc, '/', false)
  {
    if |loc| >= 1 {
      var t := SegmentText(loc[0], false);
      assert '.' !in t by {
        if loc[0].Item? {
          assert forall i :: 0 <= i < |NatToString(loc[0].index)| ==> NatToString(loc[0].index)[i] != '.';
        }
      }
      DotsToSlashesNoDot(t);
      if |loc| > 1 {
        DotsToSlashesConcat(t + ".", RenderWith(loc[1..], '.', false));
        DotsToSlashesConcat(t, ".");
        DotsToSlashesRender(loc[1..]);
      }
    }
  }

  /** The rewriter's scope path of a Babel location is the location's scope key. */
  lemma GenerateScopePathOfLocation(loc: Location)
    requires PlainKeys(loc)
    ensures GenerateScopePath(PathLocation(loc)) == ScopeKey(loc)
  {
    CollapseRender(loc, '.');
    DotsToSlashesRender(loc);
  }

  /** Replacing dots is the same as splitting on '.' and joining with '/'. */
  lemma {:induction false} DotsToSlashesIsSplitJoin(s: string)
    ensures Join(Split(s, '.'), "/") == DotsToSlashes(s)
  {
    if s != [] {
      DotsToSlashesIsSplitJoin(s[1..]);
      var rest := Split(s[1..], '.');
      DotsToSlashesConcat([s[0]], s[1..]);
      assert s == [s[0]] + s[1..];
      if s[0] == '.' {
        assert Split(s, '.') == [[]] + rest;
        if |rest| == 1 {
          assert Join(rest, "/") == rest[0];
        }
      } else {
        assert Split(s, '.') == [[s[0]] + rest[0]] + rest[1..];
        if |rest| > 1 {
          assert Split(s, '.')[1..] == rest[1..];
        }
      }
    }
  }

  /** Splitting a rendered location on '.' yields the segments' texts. */
  lemma {:induction false} SplitRender(loc: Location)
    requires |loc| >= 1 && PlainKeys(loc)
    ensures Split(PathLocation(loc), '.') == SegmentTexts(loc, true)
  {
    var t := SegmentText(loc[0], true);
    assert '.' !in t by {
      if loc[0].Item? {
        assert forall i :: 0 <= i < |NatToString(loc[0].index)| ==> NatToString(loc[0].index)[i] != '.';
      }
    }
    if |loc| == 1 {
      SplitNoSeparator(t, '.');
    } else {
      SplitAtFirst(t, '.', PathLocation(loc[1..]));
      SplitRender(loc[1..]);
    }
  }

  lemma {:induction false} JoinSegmentTexts(loc: Location, sep: char)
    ensures Join(SegmentTexts(loc, true), [sep]) == RenderWith(loc, sep, true)
  {
    if |loc| > 1 {
      JoinSegmentTexts(loc[1..], sep);
      assert SegmentTexts(loc, true)[1..] == SegmentTexts(loc[1..], true);
    }
  }

  /** A babel location: rooted at `program`, whose first step is a statement `body[i]`. */
  predicate ProgramLocation(loc: Location)
  {
    |loc| >= 2 && loc[0] == Field("program") && loc[1].Item? && loc[1].key == "body"
    && PlainKeys(loc)
    && forall i :: 1 <= i < |loc| ==> loc[i] != Field("program")
  }

  /**
   * Cross-pass agreement: on every location Babel produces, the extraction side's
   * scope path is the rewriter's scope path, which is the location's scope key.
   */
  lemma RelativeScopePathAgrees(loc: Location)
    requires ProgramLocation(loc)
    ensures GetRelativeScopePath(PathLocation(loc)) == GenerateScopePath(PathLocation(loc)) == ScopeKey(loc)
  {
    var parts := Split(PathLocation(loc), '.');
    SplitRender(loc);
    var b := FindIndex(parts, "body");
    if b >= 1 {
      assert parts[b] == SegmentText(loc[b], true) == "body";
      assert b != 1;
      if loc[b - 1].Item? {
        assert SegmentText(loc[b - 1], true)[|loc[b - 1].key|] == '[';
      }
      assert parts[b - 1] != "program";
    }
    GenerateScopePathOfLocation(loc);
  }

  /**
   * The relative branch on a location that does start `program.body.`: the
   * result is the scope key of the rest of the location.
   */
  lemma RelativeBranchDropsProgramBody(rest: Location)
    requires PlainKeys(rest)
    ensures GetRelativeScopePath(PathLocation([Field("program"), Field("body")] + rest)) == ScopeKey(rest)
  {
    var loc := [Field("program"), Field("body")] + rest;
    assert PlainKeys(loc);
    SplitRender(loc);
    var parts := Split(PathLocation(loc), '.');
    assert parts[1] == "body";
    assert parts[0] == "program";
    assert FindIndex(parts, "body") == 1;
    assert parts[2..] == SegmentTexts(rest, true);
    JoinSegmentTexts(rest, '/');
    CollapseRender(rest, '/');
  }
}
