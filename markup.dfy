// The pseudo-markup that carries nested elements through translation:
// the extraction side writes `<element:name>inner</element:name>`
// (dist/parser/utils.js, buildContent) and the runtime recognises it with the
// global pattern `<element:(\w+)>([^<]*)<\/element:\1>` (src/client/IntlComponent.tsx).
//
// At a given position that pattern can match in one way only: `\w+` must be
// followed by `>`, which is not a word character, so the name is the longest
// run of word characters; `[^<]*` must be followed by `<`, so the content is
// the longest run without `<`; the closing tag must then repeat the name.
// `MatchPrefix` computes that match, and `FindFrom` the leftmost one from a
// given position, as `RegExp.prototype.exec` does.

module Markup {
  import opened Text

  const OpenPrefix := "<element:"
  const ClosePrefix := "</element:"

  /** The closing tag for `name`. */
  function CloseTag(name: string): string
  {
    ClosePrefix + name + ">"
  }

  /** The texts of `parts`, one after another. */
  function Concat(parts: seq<string>): string
  {
    if parts == [] then [] else parts[0] + Concat(parts[1..])
  }

  /**
   * The pseudo-tag pair around `inner`. It is written as a list of parts so that
   * proofs about pieces see the pair as one text, and `MarkupThen` spells it out
   * where a proof needs its characters.
   */
  function ElementMarkup(name: string, inner: string): string
  {
    Concat([OpenPrefix, name, ">", inner, CloseTag(name)])
  }

  lemma ConcatStep(parts: seq<string>, k: nat)
    requires k < |parts|
    ensures Concat(parts[k..]) == parts[k] + Concat(parts[k + 1..])
  {
    assert parts[k..][1..] == parts[k + 1..];
  }

  lemma AppendAssoc(a: string, b: string, c: string)
    ensures (a + b) + c == a + (b + c)
  {
  }

  /** A text cut in two at `k`. */
  lemma Split(s: string, k: nat)
    requires k <= |s|
    ensures s == s[..k] + s[k..]
  {
  }

  /** The two parts of `p + u`. */
  lemma Peel(p: string, u: string)
    ensures (p + u)[..|p|] == p && (p + u)[|p|..] == u
  {
  }

  /** The parts of a text followed by one character and more text. */
  lemma PeelChar(p: string, c: char, u: string)
    ensures var s := p + ([c] + u); |p| < |s| && s[..|p|] == p && s[|p|] == c && s[|p| + 1..] == u
  {
    var s := p + ([c] + u);
    assert s[|p|..] == [c] + u;
    assert s[|p| + 1..] == s[|p|..][1..];
  }

  /** The pseudo-tag pair followed by `rest`, spelled out part by part. */
  lemma MarkupThen(name: string, inner: string, rest: string)
    ensures ElementMarkup(name, inner) + rest == OpenPrefix + (name + (">" + (inner + (CloseTag(name) + rest))))
  {
    var ps := [OpenPrefix, name, ">", inner, CloseTag(name)];
    assert ps[0..] == ps && ps[5..] == [];
    ConcatStep(ps, 4);
    ConcatStep(ps, 3);
    ConcatStep(ps, 2);
    ConcatStep(ps, 1);
    ConcatStep(ps, 0);
    assert CloseTag(name) + [] == CloseTag(name);
    var c := CloseTag(name);
    AppendAssoc(inner, c, rest);
    AppendAssoc(">", inner + c, rest);
    AppendAssoc(name, ">" + (inner + c), rest);
    AppendAssoc(OpenPrefix, name + (">" + (inner + c)), rest);
  }

  lemma MarkupLength(name: string, inner: string)
    ensures |ElementMarkup(name, inner)| == |OpenPrefix| + |name| + 1 + |inner| + |ClosePrefix| + |name| + 1
  {
    MarkupThen(name, inner, []);
    assert ElementMarkup(name, inner) + [] == ElementMarkup(name, inner);
  }

  /** A non-empty run of `\w` characters. */
  predicate IsWordName(name: string)
  {
    |name| > 0 && forall i :: 0 <= i < |name| ==> IsWordChar(name[i])
  }

  /** Length of the longest run of `\w` characters at the start of `s`. */
  function WordRun(s: string): (n: nat)
    ensures n <= |s|
    ensures n == |s| || !IsWordChar(s[n])
  {
    if s != [] && IsWordChar(s[0]) then 1 + WordRun(s[1..]) else 0
  }

  lemma {:induction false} WordRunChars(s: string)
    ensures forall i :: 0 <= i < WordRun(s) ==> IsWordChar(s[i])
  {
    if s != [] && IsWordChar(s[0]) {
      WordRunChars(s[1..]);
      assert forall i :: 1 <= i < WordRun(s) ==> s[i] == s[1..][i - 1];
    }
  }

  /** Length of the longest run without `<` at the start of `s`. */
  function TextRun(s: string): (n: nat)
    ensures n <= |s|
    ensures n == |s| || s[n] == '<'
  {
    if s != [] && s[0] != '<' then 1 + TextRun(s[1..]) else 0
  }

  lemma {:induction false} TextRunChars(s: string)
    ensures '<' !in s[..TextRun(s)]
  {
    if s != [] && s[0] != '<' {
      TextRunChars(s[1..]);
      assert s[..TextRun(s)] == [s[0]] + s[1..][..TextRun(s[1..])];
    }
  }

  /** `s` starts with `p`. */
  predicate StartsWith(s: string, p: string)
  {
    |p| <= |s| && s[..|p|] == p
  }

  /** A match of the pattern: where it starts, the two groups, and how many characters it spans. */
  datatype Match = Match(offset: nat, name: string, content: string, length: nat)

  /**
   * The match of the pattern at the very start of `s`, if any: the opening
   * prefix, the longest word run, `>`, the longest run without `<`, and the
   * closing tag for the name. `t`, `u` and `v` are what is left of `s` after each
   * step.
   */
  function MatchPrefix(s: string): Option<Match>
  {
    if !StartsWith(s, OpenPrefix) then None
    else
      var t := s[|OpenPrefix|..];
      var n := WordRun(t);
      if n == 0 || n == |t| || t[n] != '>' then None
      else
        var u := t[n + 1..];
        var c := TextRun(u);
        var v := u[c..];
        if StartsWith(v, CloseTag(t[..n])) then Some(Match(0, t[..n], u[..c], |s| - |v| + |CloseTag(t[..n])|))
        else None
  }

  /** A match starts where it is looked for and spans part of the text. */
  lemma MatchPrefixBounds(s: string)
    ensures var m := MatchPrefix(s);
            m.Some? ==> m.value.offset == 0 && 0 < m.value.length <= |s|
  {
  }

  /** The two groups of a match: a `\w+` name and content without `<`. */
  lemma MatchPrefixGroups(s: string)
    ensures var m := MatchPrefix(s);
            m.Some? ==> IsWordName(m.value.name) && '<' !in m.value.content
  {
    if MatchPrefix(s).Some? {
      var t := s[|OpenPrefix|..];
      WordRunChars(t);
      TextRunChars(t[WordRun(t) + 1..]);
    }
  }

  /** A text cut into the pieces of the pattern is the pseudo-tag pair of its groups followed by the rest. */
  lemma Rebuild(s: string, t: string, u: string, v: string, name: string, content: string, w: string)
    requires s == OpenPrefix + t && t == name + (">" + u) && u == content + v && v == CloseTag(name) + w
    ensures s == ElementMarkup(name, content) + w
  {
    MarkupThen(name, content, w);
  }

  /** The text a match spans, cut where `MatchPrefix` cuts it, is the pseudo-tag pair of the two groups. */
  lemma SpannedMarkup(s: string, t: string, n: nat, u: string, c: nat, v: string)
    requires StartsWith(s, OpenPrefix) && t == s[|OpenPrefix|..]
    requires n < |t| && t[n] == '>' && u == t[n + 1..]
    requires c <= |u| && v == u[c..] && StartsWith(v, CloseTag(t[..n]))
    ensures |s| - |v| + |CloseTag(t[..n])| <= |s|
    ensures s[..|s| - |v| + |CloseTag(t[..n])|] == ElementMarkup(t[..n], u[..c])
  {
    var close := CloseTag(t[..n]);
    var w := v[|close|..];
    assert s == OpenPrefix + t by { Split(s, |OpenPrefix|); }
    assert t == t[..n] + (">" + u) by {
      Split(t, n);
      assert t[n..] == [t[n]] + u;
    }
    assert u == u[..c] + v by { Split(u, c); }
    assert v == close + w by { Split(v, |close|); }
    Rebuild(s, t, u, v, t[..n], u[..c], w);
    Peel(ElementMarkup(t[..n], u[..c]), w);
  }

  /** A match is an occurrence of the pattern: the text it spans is the pseudo-tag pair of its groups. */
  lemma MatchPrefixSound(s: string)
    ensures var m := MatchPrefix(s);
            m.Some? ==> m.value.length <= |s| && s[..m.value.length] == ElementMarkup(m.value.name, m.value.content)
  {
    if MatchPrefix(s).Some? {
      var t := s[|OpenPrefix|..];
      var n := WordRun(t);
      var u := t[n + 1..];
      SpannedMarkup(s, t, n, u, TextRun(u), u[TextRun(u)..]);
    }
  }

  lemma {:induction false} WordRunOf(name: string, t: string)
    requires forall i :: 0 <= i < |name| ==> IsWordChar(name[i])
    requires t != [] && !IsWordChar(t[0])
    ensures WordRun(name + t) == |name|
  {
    if name != [] {
      assert (name + t)[1..] == name[1..] + t;
      WordRunOf(name[1..], t);
    }
  }

  lemma {:induction false} TextRunOf(content: string, t: string)
    requires '<' !in content
    requires t != [] && t[0] == '<'
    ensures TextRun(content + t) == |content|
  {
    if content != [] {
      assert (content + t)[1..] == content[1..] + t;
      assert content[0] in content;
      TextRunOf(content[1..], t);
    }
  }

  /**
   * The matcher finds every occurrence of the pattern at the start of `s`; with
   * `MatchPrefixGroups` and `MatchPrefixSound` it recognises exactly the pattern's language.
   */
  lemma MatchPrefixComplete(name: string, content: string, rest: string)
    requires IsWordName(name) && '<' !in content
    ensures MatchPrefix(ElementMarkup(name, content) + rest)
         == Some(Match(0, name, content, |ElementMarkup(name, content)|))
  {
    var close := CloseTag(name);
    var v := close + rest;
    var u := content + v;
    var t := name + ([ '>' ] + u);
    var s := ElementMarkup(name, content) + rest;
    MarkupThen(name, content, rest);
    assert s == OpenPrefix + t;
    Peel(OpenPrefix, t);
    PeelChar(name, '>', u);
    WordRunOf(name, [ '>' ] + u);
    assert close[0] == '<';
    TextRunOf(content, v);
    Peel(content, v);
    Peel(close, rest);
    Peel(ElementMarkup(name, content), rest);
  }

  /** A match can only start at `<`. */
  lemma MatchPrefixAtLt(s: string)
    ensures MatchPrefix(s).Some? ==> s != [] && s[0] == '<'
  {
    if MatchPrefix(s).Some? {
      assert s[..|OpenPrefix|][0] == '<';
    }
  }

  // ---------------------------------------------------------------------------
  // Searching. `exec` tries the pattern at each position in turn. The search and
  // the split below are written for any matcher with the properties that
  // `MatchPrefix` has, so that their proofs rest on those properties alone.

  type Matcher = string -> Option<Match>

  /** Matches start where the matcher looks, at a `<`, and span part of the text. */
  ghost predicate Anchored(at: Matcher)
  {
    forall t {:trigger at(t)} :: at(t).Some? ==> t != [] && t[0] == '<' && at(t).value.offset == 0 && 0 < at(t).value.length <= |t|
  }

  /**
   * Names a text a proof is looking at. `Recognises` and `Finds` are stated for
   * named texts only, so that they are applied where a proof asks for them and
   * not at every position a search passes.
   */
  ghost predicate Looked(t: string)
  {
    true
  }

  /** The matcher reports only pseudo-tag pairs whose groups are well formed. */
  ghost predicate Recognises(at: Matcher)
  {
    forall t {:trigger Looked(t)} :: Looked(t) && at(t).Some? ==>
      && at(t).value.length <= |t| && t[..at(t).value.length] == ElementMarkup(at(t).value.name, at(t).value.content)
      && IsWordName(at(t).value.name) && '<' !in at(t).value.content
  }

  /** The matcher reports every pseudo-tag pair with well-formed groups at the start of a text. */
  ghost predicate Finds(at: Matcher)
  {
    forall name, content, rest {:trigger Looked(ElementMarkup(name, content) + rest)} ::
      Looked(ElementMarkup(name, content) + rest) && IsWordName(name) && '<' !in content ==>
      at(ElementMarkup(name, content) + rest) == Some(Match(0, name, content, |ElementMarkup(name, content)|))
  }

  lemma PatternAnchored()
    ensures Anchored(MatchPrefix)
  {
    forall t
      ensures MatchPrefix(t).Some? ==> t != [] && t[0] == '<' && MatchPrefix(t).value.offset == 0
                                       && 0 < MatchPrefix(t).value.length <= |t|
    {
      MatchPrefixBounds(t);
      MatchPrefixAtLt(t);
    }
  }

  lemma PatternRecognises()
    ensures Recognises(MatchPrefix)
  {
    forall t
      ensures Looked(t) && MatchPrefix(t).Some? ==>
        && MatchPrefix(t).value.length <= |t|
        && t[..MatchPrefix(t).value.length] == ElementMarkup(MatchPrefix(t).value.name, MatchPrefix(t).value.content)
        && IsWordName(MatchPrefix(t).value.name) && '<' !in MatchPrefix(t).value.content
    {
      MatchPrefixSound(t);
      MatchPrefixGroups(t);
    }
  }

  lemma PatternFinds()
    ensures Finds(MatchPrefix)
  {
    forall name, content, rest | Looked(ElementMarkup(name, content) + rest) && IsWordName(name) && '<' !in content
      ensures MatchPrefix(ElementMarkup(name, content) + rest) == Some(Match(0, name, content, |ElementMarkup(name, content)|))
    {
      MatchPrefixComplete(name, content, rest);
    }
  }

  /** `r` is a match the matcher reports at the start of a text, with the groups and length of `m`. */
  predicate Reports(r: Option<Match>, m: Match)
  {
    r.Some? && r.value.name == m.name && r.value.content == m.content && r.value.length == m.length
  }

  /**
   * The first match in `s` at or after position `i`, as `exec` finds it when the
   * pattern's `lastIndex` is `i`; the offset counts from the start of `s`.
   */
  function FindFrom(at: Matcher, s: string, i: nat): (m: Option<Match>)
    requires Anchored(at) && i <= |s|
    ensures m.Some? ==> i <= m.value.offset && 0 < m.value.length && m.value.offset + m.value.length <= |s|
    decreases |s| - i
  {
    var here := at(s[i..]);
    if here.Some? then Some(Match(i, here.value.name, here.value.content, here.value.length))
    else if i == |s| then None
    else FindFrom(at, s, i + 1)
  }

  /** The match `FindFrom` reports is the one the matcher reports at its offset. */
  lemma {:induction false} FindFromHere(at: Matcher, s: string, i: nat)
    requires Anchored(at) && i <= |s|
    ensures var m := FindFrom(at, s, i); m.Some? ==> Reports(at(s[m.value.offset..]), m.value)
    decreases |s| - i
  {
    if at(s[i..]).None? && i < |s| {
      FindFromHere(at, s, i + 1);
    }
  }

  /** `FindFrom` finds the leftmost position where the matcher succeeds, or reports that there is none. */
  lemma {:induction false} FindFromLeftmost(at: Matcher, s: string, i: nat)
    requires Anchored(at) && i <= |s|
    ensures var m := FindFrom(at, s, i);
            && (m.Some? ==> forall p :: i <= p < m.value.offset ==> at(s[p..]).None?)
            && (m.None? ==> forall p :: i <= p <= |s| ==> at(s[p..]).None?)
    decreases |s| - i
  {
    if at(s[i..]).None? && i < |s| {
      FindFromLeftmost(at, s, i + 1);
    }
  }

  /** The text at a found match is the pseudo-tag pair of its groups, and the groups are well formed. */
  lemma FindFromSound(at: Matcher, s: string, i: nat)
    requires Anchored(at) && Recognises(at) && i <= |s|
    ensures var m := FindFrom(at, s, i);
            m.Some? ==> && s[m.value.offset..m.value.offset + m.value.length] == ElementMarkup(m.value.name, m.value.content)
                        && IsWordName(m.value.name) && '<' !in m.value.content
  {
    var m := FindFrom(at, s, i);
    if m.Some? {
      FindFromHere(at, s, i);
      var o := m.value.offset;
      assert Looked(s[o..]);
      assert s[o..][..m.value.length] == s[o..o + m.value.length];
    }
  }

  /** Nothing matches where there is no `<`, so the search skips such a stretch. */
  lemma {:induction false} FindFromSkip(at: Matcher, s: string, i: nat, j: nat)
    requires Anchored(at) && i <= j <= |s| && forall k :: i <= k < j ==> s[k] != '<'
    ensures FindFrom(at, s, i) == FindFrom(at, s, j)
    decreases j - i
  {
    if i < j {
      assert s[i..][0] == s[i];
      FindFromSkip(at, s, i + 1, j);
    }
  }

  // ---------------------------------------------------------------------------
  // Splitting a string into text and recognised elements.

  datatype Piece = Plain(text: string) | Tagged(name: string, content: string)

  /** A text piece for `t`, or nothing when `t` is empty. */
  function TextPiece(t: string): seq<Piece>
  {
    if t == [] then [] else [Plain(t)]
  }

  /**
   * The pieces `parseContent` builds from position `i` on: the text before each
   * match (when there is any), the match, and the text after the last match
   * (when there is any).
   */
  function PiecesFrom(at: Matcher, s: string, i: nat): seq<Piece>
    requires Anchored(at) && i <= |s|
    decreases |s| - i
  {
    match FindFrom(at, s, i)
    case None => TextPiece(s[i..])
    case Some(m) => TextPiece(s[i..m.offset]) + ([Tagged(m.name, m.content)] + PiecesFrom(at, s, m.offset + m.length))
  }

  /** The pieces of a whole string. */
  function Pieces(at: Matcher, s: string): seq<Piece>
    requires Anchored(at)
  {
    PiecesFrom(at, s, 0)
  }

  /** The text one piece stands for. */
  function PieceText(p: Piece): string
  {
    match p
    case Plain(t) => t
    case Tagged(name, content) => ElementMarkup(name, content)
  }

  /** The text a list of pieces stands for. */
  function Unparse(ps: seq<Piece>): string
  {
    if ps == [] then [] else PieceText(ps[0]) + Unparse(ps[1..])
  }

  lemma {:induction false} UnparseAppend(ps: seq<Piece>, qs: seq<Piece>)
    ensures Unparse(ps + qs) == Unparse(ps) + Unparse(qs)
  {
    if ps == [] {
      assert ps + qs == qs;
    } else {
      assert (ps + qs)[0] == ps[0];
      assert (ps + qs)[1..] == ps[1..] + qs;
      UnparseAppend(ps[1..], qs);
    }
  }

  lemma UnparseTextPiece(t: string)
    ensures Unparse(TextPiece(t)) == t
  {
    if t != [] {
      assert [Plain(t)][1..] == [];
    }
  }

  /** The text of an optional text piece, an element and further pieces. */
  lemma UnparseTextTag(t: string, name: string, content: string, x: string, rest: seq<Piece>)
    requires ElementMarkup(name, content) == x
    ensures Unparse(TextPiece(t) + ([Tagged(name, content)] + rest)) == t + (x + Unparse(rest))
  {
    UnparseAppend(TextPiece(t), [Tagged(name, content)] + rest);
    UnparseTextPiece(t);
    assert ([Tagged(name, content)] + rest)[1..] == rest;
  }

  /** The text at a found match is the pseudo-tag pair of its groups. */
  lemma FindFromMarkup(at: Matcher, s: string, i: nat)
    requires Anchored(at) && Recognises(at) && i <= |s| && FindFrom(at, s, i).Some?
    ensures var m := FindFrom(at, s, i).value;
            s[m.offset..m.offset + m.length] == ElementMarkup(m.name, m.content)
  {
    FindFromSound(at, s, i);
  }

  /** A suffix cut in three places. */
  lemma ThreeSlices(s: string, i: nat, a: nat, b: nat)
    requires i <= a <= b <= |s|
    ensures s[i..] == s[i..a] + (s[a..b] + s[b..])
  {
  }

  /** The pieces from `i` on when there is a match: the text before it, the element, and the pieces after it. */
  lemma PiecesFromSome(at: Matcher, s: string, i: nat)
    requires Anchored(at) && i <= |s| && FindFrom(at, s, i).Some?
    ensures var m := FindFrom(at, s, i).value;
            PiecesFrom(at, s, i) == TextPiece(s[i..m.offset]) + ([Tagged(m.name, m.content)] + PiecesFrom(at, s, m.offset + m.length))
  {
  }

  /** The text of pieces laid out as `PiecesFrom` lays them out around a match. */
  lemma UnparseAround(ps: seq<Piece>, t: string, name: string, content: string, x: string, rest: seq<Piece>)
    requires ps == TextPiece(t) + ([Tagged(name, content)] + rest) && ElementMarkup(name, content) == x
    ensures Unparse(ps) == t + (x + Unparse(rest))
  {
    UnparseTextTag(t, name, content, x, rest);
  }

  /** The pieces up to and including a found match stand for the text up to the end of that match. */
  lemma MatchText(at: Matcher, s: string, i: nat)
    requires Anchored(at) && Recognises(at) && i <= |s| && FindFrom(at, s, i).Some?
    ensures var m := FindFrom(at, s, i).value;
            Unparse(PiecesFrom(at, s, i)) == s[i..m.offset] + (s[m.offset..m.offset + m.length] + Unparse(PiecesFrom(at, s, m.offset + m.length)))
  {
    var m := FindFrom(at, s, i).value;
    PiecesFromSome(at, s, i);
    FindFromMarkup(at, s, i);
    UnparseAround(PiecesFrom(at, s, i), s[i..m.offset], m.name, m.content, s[m.offset..m.offset + m.length], PiecesFrom(at, s, m.offset + m.length));
  }

  /** The text from `i` on, put back together from the text before `a`, the text up to `b` and the rest. */
  lemma RoundTripJoin(s: string, i: nat, a: nat, b: nat, x: string, y: string)
    requires i <= a <= b <= |s| && x == s[i..a] + (s[a..b] + y) && y == s[b..]
    ensures x == s[i..]
  {
    ThreeSlices(s, i, a, b);
  }

  /** Splitting loses nothing: the pieces from `i` on put back together give the text from `i` on. */
  lemma {:induction false} PiecesFromRoundTrip(at: Matcher, s: string, i: nat)
    requires Anchored(at) && Recognises(at) && i <= |s|
    ensures Unparse(PiecesFrom(at, s, i)) == s[i..]
    decreases |s| - i
  {
    var m := FindFrom(at, s, i);
    if m.Some? {
      var e := m.value.offset + m.value.length;
      PiecesFromRoundTrip(at, s, e);
      MatchText(at, s, i);
      RoundTripJoin(s, i, m.value.offset, e, Unparse(PiecesFrom(at, s, i)), Unparse(PiecesFrom(at, s, e)));
    } else {
      UnparseTextPiece(s[i..]);
    }
  }

  /** Splitting a string loses nothing: the pieces put back together give the string. */
  lemma PiecesRoundTrip(at: Matcher, s: string)
    requires Anchored(at) && Recognises(at)
    ensures Unparse(Pieces(at, s)) == s
  {
    PiecesFromRoundTrip(at, s, 0);
  }

  // ---------------------------------------------------------------------------
  // The other direction: well-formed pieces are recovered, with adjacent texts merged.

  /** A text that cannot start a tag, or an element whose groups match the pattern. */
  predicate WellFormedPiece(p: Piece)
  {
    match p
    case Plain(t) => '<' !in t
    case Tagged(name, content) => IsWordName(name) && '<' !in content
  }

  predicate WellFormed(ps: seq<Piece>)
  {
    forall i :: 0 <= i < |ps| ==> WellFormedPiece(ps[i])
  }

  /** `t` in front of `ps`, joined to a leading text piece; nothing when `t` is empty. */
  function PrependText(t: string, ps: seq<Piece>): seq<Piece>
  {
    if t == [] then ps
    else if ps != [] && ps[0].Plain? then [Plain(t + ps[0].text)] + ps[1..]
    else [Plain(t)] + ps
  }

  /** `p` in front of `ps`: a text joins a leading text piece, an element is put in front. */
  function Join(p: Piece, ps: seq<Piece>): seq<Piece>
  {
    match p
    case Plain(t) => PrependText(t, ps)
    case Tagged(_, _) => [p] + ps
  }

  /** The pieces with empty texts dropped and adjacent texts joined. */
  function Merge(ps: seq<Piece>): seq<Piece>
  {
    if ps == [] then [] else Join(ps[0], Merge(ps[1..]))
  }

  /** A text put in front of an optional text piece that is followed by nothing or by an element. */
  lemma PrependTextPiece(t: string, u: string, rest: seq<Piece>)
    requires t != [] && (rest == [] || rest[0].Tagged?)
    ensures PrependText(t, TextPiece(u) + rest) == TextPiece(t + u) + rest
  {
    if u != [] {
      assert (TextPiece(u) + rest)[1..] == rest;
    } else {
      assert t + u == t;
      assert TextPiece(u) + rest == rest;
    }
  }

  /** The step that closes `TextFrom`, stated without the search. */
  lemma JoinText(x: seq<Piece>, y: seq<Piece>, t: string, v: string, w: string, rest: seq<Piece>)
    requires t != [] && t + v == w && (rest == [] || rest[0].Tagged?)
    requires x == TextPiece(w) + rest && y == TextPiece(v) + rest
    ensures x == PrependText(t, y)
  {
    PrependTextPiece(t, v, rest);
  }

  /** A stretch from `i` to `j` without `<` joins the text in front of the pieces from `j` on. */
  lemma TextFrom(at: Matcher, s: string, i: nat, j: nat)
    requires Anchored(at) && i < j <= |s| && forall k :: i <= k < j ==> s[k] != '<'
    ensures PiecesFrom(at, s, i) == PrependText(s[i..j], PiecesFrom(at, s, j))
  {
    FindFromSkip(at, s, i, j);
    var m := FindFrom(at, s, j);
    if m.None? {
      assert TextPiece(s[j..]) + [] == TextPiece(s[j..]);
      assert TextPiece(s[i..]) + [] == TextPiece(s[i..]);
      JoinText(PiecesFrom(at, s, i), PiecesFrom(at, s, j), s[i..j], s[j..], s[i..], []);
    } else {
      var o := m.value.offset;
      var rest := [Tagged(m.value.name, m.value.content)] + PiecesFrom(at, s, o + m.value.length);
      JoinText(PiecesFrom(at, s, i), PiecesFrom(at, s, j), s[i..j], s[j..o], s[i..o], rest);
    }
  }

  /** Where a pseudo-tag pair starts, the pieces are its element and then the pieces after it. */
  lemma TagFrom(at: Matcher, s: string, i: nat, name: string, content: string, u: string)
    requires Anchored(at) && Finds(at) && IsWordName(name) && '<' !in content
    requires i <= |s| && s[i..] == ElementMarkup(name, content) + u
    ensures i + |ElementMarkup(name, content)| <= |s| && s[i + |ElementMarkup(name, content)|..] == u
    ensures PiecesFrom(at, s, i) == [Tagged(name, content)] + PiecesFrom(at, s, i + |ElementMarkup(name, content)|)
  {
    var x := ElementMarkup(name, content);
    assert Looked(x + u);
    assert at(x + u) == Some(Match(0, name, content, |x|));
    assert s[i + |x|..] == s[i..][|x|..];
  }

  /** Where the text of a well-formed piece starts, the pieces are that piece joined to the pieces after it. */
  lemma HeadFrom(at: Matcher, s: string, i: nat, p: Piece, u: string)
    requires Anchored(at) && Finds(at) && WellFormedPiece(p) && i <= |s| && s[i..] == PieceText(p) + u
    ensures i + |PieceText(p)| <= |s| && s[i + |PieceText(p)|..] == u
    ensures PiecesFrom(at, s, i) == Join(p, PiecesFrom(at, s, i + |PieceText(p)|))
  {
    match p
    case Plain(t) =>
      var j := i + |t|;
      assert s[j..] == s[i..][|t|..];
      if t != [] {
        assert forall k :: i <= k < j ==> s[k] == s[i..][k - i];
        assert s[i..j] == s[i..][..|t|];
        TextFrom(at, s, i, j);
      }
    case Tagged(name, content) =>
      TagFrom(at, s, i, name, content, u);
  }

  lemma MergeCons(ps: seq<Piece>, a: seq<Piece>, b: seq<Piece>)
    requires ps != [] && a == Join(ps[0], b) && b == Merge(ps[1..])
    ensures a == Merge(ps)
  {
  }

  /** Nothing is left at the end of the text. */
  lemma PiecesFromEnd(at: Matcher, s: string, i: nat)
    requires Anchored(at) && i <= |s| && s[i..] == []
    ensures PiecesFrom(at, s, i) == []
  {
    assert i == |s|;
  }

  lemma WellFormedTail(ps: seq<Piece>)
    requires WellFormed(ps) && ps != []
    ensures WellFormedPiece(ps[0]) && WellFormed(ps[1..])
  {
    forall k | 0 <= k < |ps| - 1 ensures ps[1..][k] == ps[k + 1] { }
  }

  /** Splitting text that spells out well-formed pieces from `i` on recovers them, up to joining texts. */
  lemma {:induction false} PiecesFromUnparse(at: Matcher, s: string, i: nat, ps: seq<Piece>)
    requires Anchored(at) && Finds(at) && WellFormed(ps) && i <= |s| && s[i..] == Unparse(ps)
    ensures PiecesFrom(at, s, i) == Merge(ps)
    decreases |ps|
  {
    if ps == [] {
      PiecesFromEnd(at, s, i);
    } else {
      WellFormedTail(ps);
      var j := i + |PieceText(ps[0])|;
      assert s[i..] == PieceText(ps[0]) + Unparse(ps[1..]);
      HeadFrom(at, s, i, ps[0], Unparse(ps[1..]));
      PiecesFromUnparse(at, s, j, ps[1..]);
      MergeCons(ps, PiecesFrom(at, s, i), PiecesFrom(at, s, j));
    }
  }

  /** Splitting the text of well-formed pieces recovers them, up to joining texts. */
  lemma PiecesOfUnparse(at: Matcher, ps: seq<Piece>)
    requires Anchored(at) && Finds(at) && WellFormed(ps)
    ensures Pieces(at, Unparse(ps)) == Merge(ps)
  {
    var s := Unparse(ps);
    assert s[0..] == s;
    PiecesFromUnparse(at, s, 0, ps);
  }

  /** The elements of a list of pieces, in order. */
  function TaggedOf(ps: seq<Piece>): seq<Piece>
  {
    if ps == [] then [] else (if ps[0].Tagged? then [ps[0]] else []) + TaggedOf(ps[1..])
  }

  /** Every element of a list is still there after merging, in order. */
  lemma {:induction false} MergeKeepsTagged(ps: seq<Piece>)
    ensures TaggedOf(Merge(ps)) == TaggedOf(ps)
  {
    if ps != [] {
      MergeKeepsTagged(ps[1..]);
      var ms := Merge(ps[1..]);
      if ps[0].Plain? && ps[0].text != [] && ms != [] && ms[0].Plain? {
        assert ms == [ms[0]] + ms[1..];
        assert TaggedOf(ms) == TaggedOf(ms[1..]);
        var r := [Plain(ps[0].text + ms[0].text)] + ms[1..];
        assert r[1..] == ms[1..];
      } else if ps[0].Plain? && ps[0].text != [] {
        var r := [Plain(ps[0].text)] + ms;
        assert r[1..] == ms;
      } else if ps[0].Tagged? {
        var r := [ps[0]] + ms;
        assert r[1..] == ms;
      }
    }
  }
}
