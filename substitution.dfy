// Variable substitution in translated content, as both runtime components do it
// (src/client/IntlComponent.tsx and src/client/IntlComponent.ts, parseContent):
// for each variable in entry order, every `{key}` is replaced by the value with
// a global regular expression, which scans left to right and replaces
// non-overlapping occurrences.

module Substitution {
  import opened Text

  /** The text `{key}` the pattern for a variable matches. */
  function Placeholder(key: string): string
  {
    "{" + key + "}"
  }

  /** `pat` occurs in `s` at position `i`. */
  predicate OccursAt(s: string, pat: string, i: int)
  {
    0 <= i && i + |pat| <= |s| && s[i..i + |pat|] == pat
  }

  /** `pat` occurs somewhere in `s`. */
  ghost predicate Occurs(s: string, pat: string)
  {
    exists i :: OccursAt(s, pat, i)
  }

  /** `s.replace(/pat/g, rep)`: each occurrence, found left to right and not overlapping the previous one, becomes `rep`. */
  function ReplaceAll(s: string, pat: string, rep: string): string
    requires pat != []
    decreases |s|
  {
    if |s| < |pat| then s
    else if s[..|pat|] == pat then rep + ReplaceAll(s[|pat|..], pat, rep)
    else [s[0]] + ReplaceAll(s[1..], pat, rep)
  }

  /** The stretches of `s` between the occurrences `ReplaceAll` replaces. */
  function SplitOn(s: string, pat: string): (parts: seq<string>)
    requires pat != []
    ensures |parts| >= 1
    decreases |s|
  {
    if |s| < |pat| then [s]
    else if s[..|pat|] == pat then [[]] + SplitOn(s[|pat|..], pat)
    else
      var rest := SplitOn(s[1..], pat);
      [[s[0]] + rest[0]] + rest[1..]
  }

  /** Joining parts whose first part has `x` in front. */
  lemma JoinPrefix(x: string, parts: seq<string>, sep: string)
    requires |parts| >= 1
    ensures Join([x + parts[0]] + parts[1..], sep) == x + Join(parts, sep)
  {
    if |parts| > 1 {
      JoinCons(x + parts[0], parts[1..], sep);
      JoinCons(parts[0], parts[1..], sep);
      assert [parts[0]] + parts[1..] == parts;
    }
  }

  /** Joining parts behind an empty first part. */
  lemma JoinEmptyFirst(parts: seq<string>, sep: string)
    requires |parts| >= 1
    ensures Join([[]] + parts, sep) == sep + Join(parts, sep)
  {
    JoinCons([], parts, sep);
  }

  /** The parts with the pattern between them give back the string. */
  lemma {:induction false} SplitOnJoin(s: string, pat: string)
    requires pat != []
    ensures Join(SplitOn(s, pat), pat) == s
    decreases |s|
  {
    if |s| >= |pat| {
      if s[..|pat|] == pat {
        SplitOnJoin(s[|pat|..], pat);
        JoinEmptyFirst(SplitOn(s[|pat|..], pat), pat);
        assert s == pat + s[|pat|..];
      } else {
        SplitOnJoin(s[1..], pat);
        JoinPrefix([s[0]], SplitOn(s[1..], pat), pat);
        assert s == [s[0]] + s[1..];
      }
    }
  }

  /** Replacing is joining the same parts with the replacement between them. */
  lemma {:induction false} ReplaceAllJoin(s: string, pat: string, rep: string)
    requires pat != []
    ensures ReplaceAll(s, pat, rep) == Join(SplitOn(s, pat), rep)
    decreases |s|
  {
    if |s| >= |pat| {
      if s[..|pat|] == pat {
        ReplaceAllJoin(s[|pat|..], pat, rep);
        JoinEmptyFirst(SplitOn(s[|pat|..], pat), rep);
      } else {
        ReplaceAllJoin(s[1..], pat, rep);
        JoinPrefix([s[0]], SplitOn(s[1..], pat), rep);
      }
    }
  }

  /** Replacing the pattern by itself changes nothing. */
  lemma ReplaceAllSelf(s: string, pat: string)
    requires pat != []
    ensures ReplaceAll(s, pat, pat) == s
  {
    ReplaceAllJoin(s, pat, pat);
    SplitOnJoin(s, pat);
  }

  /** A string without the pattern is one part. */
  lemma {:induction false} SplitOnAbsent(s: string, pat: string)
    requires pat != [] && !Occurs(s, pat)
    ensures SplitOn(s, pat) == [s]
    decreases |s|
  {
    if |s| >= |pat| {
      assert !OccursAt(s, pat, 0);
      assert !Occurs(s[1..], pat) by {
        forall i | OccursAt(s[1..], pat, i) ensures OccursAt(s, pat, i + 1) {
          assert s[1..][i..i + |pat|] == s[i + 1..i + 1 + |pat|];
        }
      }
      SplitOnAbsent(s[1..], pat);
      assert [s[0]] + s[1..] == s;
    }
  }

  /** A string without the pattern is left as it is. */
  lemma ReplaceAllAbsent(s: string, pat: string, rep: string)
    requires pat != [] && !Occurs(s, pat)
    ensures ReplaceAll(s, pat, rep) == s
  {
    ReplaceAllJoin(s, pat, rep);
    SplitOnAbsent(s, pat);
  }

  // ---------------------------------------------------------------------------
  // All variables.

  /** Every variable substituted in turn, in the order of the object's entries. */
  function SubstituteAll(content: string, variables: Record<string>): string
    decreases |variables|
  {
    if variables == [] then content
    else SubstituteAll(ReplaceAll(content, Placeholder(variables[0].0), variables[0].1), variables[1..])
  }

  /** `processedContent` after the `if (variables)` block: the content itself when no variables are passed. */
  function Substituted(content: string, variables: Option<Record<string>>): string
  {
    if variables.None? then content else SubstituteAll(content, variables.value)
  }

  /** The `forEach` over the variables' entries. */
  method Substitute(content: string, variables: Option<Record<string>>) returns (processed: string)
    ensures processed == Substituted(content, variables)
  {
    processed := content;
    if variables.Some? {
      var entries := variables.value;
      var i := 0;
      while i < |entries|
        invariant 0 <= i <= |entries|
        invariant SubstituteAll(processed, entries[i..]) == SubstituteAll(content, entries)
      {
        assert entries[i..][0] == entries[i] && entries[i..][1..] == entries[i + 1..];
        processed := ReplaceAll(processed, Placeholder(entries[i].0), entries[i].1);
        i := i + 1;
      }
    }
  }

  /** Content in which no variable's placeholder occurs comes through unchanged. */
  lemma {:induction false} SubstituteAllAbsent(content: string, variables: Record<string>)
    requires forall k :: 0 <= k < |variables| ==> !Occurs(content, Placeholder(variables[k].0))
    ensures SubstituteAll(content, variables) == content
    decreases |variables|
  {
    if variables != [] {
      ReplaceAllAbsent(content, Placeholder(variables[0].0), variables[0].1);
      assert forall k :: 0 <= k < |variables[1..]| ==> variables[1..][k] == variables[k + 1];
      SubstituteAllAbsent(content, variables[1..]);
    }
  }

  /** Empty content stays empty, whatever the variables. */
  lemma {:induction false} SubstituteAllEmpty(variables: Record<string>)
    ensures SubstituteAll([], variables) == []
    decreases |variables|
  {
    if variables != [] {
      SubstituteAllEmpty(variables[1..]);
    }
  }

  /**
   * Variables are substituted one after another, so a value that contains a
   * later variable's placeholder has that placeholder substituted too.
   */
  lemma LaterVariableSubstitutesValue(a: string, v: string, rest: Record<string>)
    ensures SubstituteAll(Placeholder(a), [(a, v)] + rest) == SubstituteAll(v, rest)
  {
    var p := Placeholder(a);
    assert p[..|p|] == p && p[|p|..] == [];
    assert ReplaceAll([], p, v) == [];
    assert ReplaceAll(p, p, v) == v + ReplaceAll([], p, v) == v;
    var variables := [(a, v)] + rest;
    assert variables[0] == (a, v) && variables[1..] == rest;
    assert SubstituteAll(p, variables) == SubstituteAll(ReplaceAll(p, p, v), rest);
  }
}
