/** The seven regular expressions `preserve_formulas` applies, each written as an explicit
    matcher that returns the length of the match starting at the head of a string (0 when
    there is none), and each proved against a declarative description of the set of strings
    the regex matches.

    Every one of these regexes has at most one match starting at a given position: a `\s*`
    run is always followed by a literal that is not whitespace, and a `[^\$]+` run is always
    followed by `$`. Greedy and backtracking choices therefore never matter, and "the match at
    the head of `s`" is simply "the unique prefix of `s` in the pattern's language". */
module Patterns {
  import opened Text

  datatype Pattern =
    | BlockMath       // \$\$[^\$]+\$\$
    | InlineMath      // \$[^\$]+\$
    | ProductEqualsK  // 𝑥\s*·\s*𝑦\s*=\s*𝑘
    | LSqrt           // 𝐿\s*√
    | SqrtK           // √\s*𝑘
    | PSubscript      // 𝑝\s*[𝑎𝑏𝑐]
    | RealSubscript   // [𝑥𝑦]\s*real

  /** The five hand-written math-variable patterns, in list order. */
  const MathPatterns: seq<Pattern> := [ProductEqualsK, LSqrt, SqrtK, PSubscript, RealSubscript]

  /** Every pass of `preserve_formulas`, in the order they run. */
  const Passes: seq<Pattern> := [BlockMath, InlineMath] + MathPatterns

  /** The characters a match of one of the five math patterns may contain besides whitespace. */
  predicate IsMathChar(c: char) {
    c in {'𝑥', '·', '𝑦', '=', '𝑘', '𝐿', '√', '𝑝', '𝑎', '𝑏', '𝑐', 'r', 'e', 'a', 'l'}
  }

  /** The characters a match of any pattern may begin or end with. */
  predicate IsBoundaryChar(c: char) {
    c in {'$', '𝑥', '𝑦', '𝑘', '𝐿', '√', '𝑝', '𝑎', '𝑏', '𝑐', 'l'}
  }

  // ---------------------------------------------------------------------------
  // The languages

  /** `\$\$[^\$]+\$\$` */
  predicate IsBlockMath(w: string) {
    |w| >= 5 && w[0] == '$' && w[1] == '$' && w[|w| - 2] == '$' && w[|w| - 1] == '$'
    && forall i :: 2 <= i < |w| - 2 ==> w[i] != '$'
  }

  /** `\$[^\$]+\$` */
  predicate IsInlineMath(w: string) {
    |w| >= 3 && w[0] == '$' && w[|w| - 1] == '$'
    && forall i :: 1 <= i < |w| - 1 ==> w[i] != '$'
  }

  predicate NoSpaceIn(cs: seq<set<char>>) {
    forall i, c :: 0 <= i < |cs| && c in cs[i] ==> !IsSpace(c)
  }

  /** `C0\s*C1\s*...\s*Cn` for character classes `cs` without whitespace: `w` begins and ends
      with a non-space character, and its non-space characters are one of each class, in order. */
  predicate Spaced(w: string, cs: seq<set<char>>) {
    |w| > 0 && !IsSpace(w[0]) && !IsSpace(w[|w| - 1])
    && |NonSpace(w)| == |cs| && forall i :: 0 <= i < |cs| ==> NonSpace(w)[i] in cs[i]
  }

  /** The character classes of a math pattern, which separates them by `\s*`. The two `$`
      patterns are not of this form and have none. */
  function Classes(p: Pattern): (cs: seq<set<char>>)
    requires p in MathPatterns
    ensures |cs| >= 2 && NoSpaceIn(cs)
  {
    match p
    case ProductEqualsK => [{'𝑥'}, {'·'}, {'𝑦'}, {'='}, {'𝑘'}]
    case LSqrt => [{'𝐿'}, {'√'}]
    case SqrtK => [{'√'}, {'𝑘'}]
    case PSubscript => [{'𝑝'}, {'𝑎', '𝑏', '𝑐'}]
    // `[𝑥𝑦]\s*r`, the part of `[𝑥𝑦]\s*real` before the literal "eal"
    case RealSubscript => [{'𝑥', '𝑦'}, {'r'}]
  }

  /** The set of strings pattern `p` matches in full. */
  predicate Matches(p: Pattern, w: string) {
    match p
    case BlockMath => IsBlockMath(w)
    case InlineMath => IsInlineMath(w)
    case RealSubscript => |w| >= 4 && w[|w| - 3..] == "eal" && Spaced(w[..|w| - 3], Classes(p))
    case _ => Spaced(w, Classes(p))
  }

  // ---------------------------------------------------------------------------
  // Scanning helpers

  /** The first index at or after `i` holding `$`, or `|s|` when there is none. */
  function NextDollar(s: string, i: nat): (j: nat)
    requires i <= |s|
    ensures i <= j <= |s|
    ensures j < |s| ==> s[j] == '$'
    ensures forall k :: i <= k < j ==> s[k] != '$'
    decreases |s| - i
  {
    if i == |s| || s[i] == '$' then i else NextDollar(s, i + 1)
  }

  /** The first index at or after `i` holding a non-space character, or `|s|`: a greedy `\s*`. */
  function SkipSpaces(s: string, i: nat): (j: nat)
    requires i <= |s|
    ensures i <= j <= |s|
    ensures j < |s| ==> !IsSpace(s[j])
    ensures forall k :: i <= k < j ==> IsSpace(s[k])
    decreases |s| - i
  {
    if i == |s| || !IsSpace(s[i]) then i else SkipSpaces(s, i + 1)
  }

  // ---------------------------------------------------------------------------
  // The matchers

  function MatchBlock(s: string): (m: nat)
    ensures m <= |s|
  {
    if |s| >= 2 && s[0] == '$' && s[1] == '$' then
      var j := NextDollar(s, 2);
      if j > 2 && j + 1 < |s| && s[j + 1] == '$' then j + 2 else 0
    else 0
  }

  lemma MatchBlockCorrect(s: string)
    ensures var m := MatchBlock(s);
      (m > 0 ==> IsBlockMath(s[..m])) && forall k :: 0 < k <= |s| && IsBlockMath(s[..k]) ==> k == m
  {
  }

  function MatchInline(s: string): (m: nat)
    ensures m <= |s|
  {
    if |s| >= 1 && s[0] == '$' then
      var j := NextDollar(s, 1);
      if j > 1 && j < |s| then j + 1 else 0
    else 0
  }

  lemma MatchInlineCorrect(s: string)
    ensures var m := MatchInline(s);
      (m > 0 ==> IsInlineMath(s[..m])) && forall k :: 0 < k <= |s| && IsInlineMath(s[..k]) ==> k == m
  {
  }

  /** Greedy matcher for `C0\s*C1\s*...\s*Cn`. */
  function MatchSpaced(s: string, cs: seq<set<char>>): (m: nat)
    requires |cs| >= 1
    ensures m <= |s|
    decreases |cs|
  {
    if s == [] || s[0] !in cs[0] then 0
    else if |cs| == 1 then 1
    else
      var i := SkipSpaces(s, 1);
      var m := MatchSpaced(s[i..], cs[1..]);
      if m == 0 then 0 else i + m
  }

  lemma {:induction false} MatchSpacedSound(s: string, cs: seq<set<char>>)
    requires |cs| >= 1 && NoSpaceIn(cs)
    ensures MatchSpaced(s, cs) > 0 ==> Spaced(s[..MatchSpaced(s, cs)], cs)
    decreases |cs|
  {
    var m := MatchSpaced(s, cs);
    if m > 0 {
      assert !IsSpace(s[0]);
      if |cs| == 1 {
        assert s[..1] == [s[0]];
      } else {
        var i := SkipSpaces(s, 1);
        var m' := MatchSpaced(s[i..], cs[1..]);
        assert NoSpaceIn(cs[1..]);
        MatchSpacedSound(s[i..], cs[1..]);
        var tail := s[i..][..m'];
        SliceParts(s, i, m);
        NonSpaceAppend([s[0]] + s[1..i], tail);
        NonSpaceAppend([s[0]], s[1..i]);
        NonSpaceOfSpaces(s[1..i]);
        assert NonSpace([s[0]]) == [s[0]];
        assert NonSpace(s[..m]) == [s[0]] + NonSpace(tail);
      }
    }
  }

  /** How the slices of a sequence around positions `0 < i <= m` fit together. */
  lemma SliceParts<T>(s: seq<T>, i: nat, m: nat)
    requires 0 < i <= m <= |s|
    ensures s[i..][..m - i] == s[i..m]
    ensures s[..m] == [s[0]] + s[1..i] + s[i..m]
  {
    assert s[..m] == s[..i] + s[i..m];
    assert s[..i] == [s[0]] + s[1..i];
  }

  lemma {:induction false} NonSpaceHead(w: string)
    requires w != [] && !IsSpace(w[0])
    ensures NonSpace(w) == [w[0]] + NonSpace(w[1..])
  {
  }

  lemma {:induction false} NonSpaceNonEmpty(w: string)
    requires w != [] && !IsSpace(w[|w| - 1])
    ensures |NonSpace(w)| >= 1
  {
    assert w == w[..|w| - 1] + [w[|w| - 1]];
    NonSpaceAppend(w[..|w| - 1], [w[|w| - 1]]);
  }

  /** Dropping a non-space first character and the spaces after it drops exactly the first
      non-space character. */
  lemma NonSpaceAfterHead(s: string, i: nat, k: nat)
    requires 1 <= i <= k <= |s| && !IsSpace(s[0])
    requires forall j :: 1 <= j < i ==> IsSpace(s[j])
    ensures NonSpace(s[i..k]) == NonSpace(s[..k])[1..]
  {
    var t := s[i..k];
    assert s[..i] == [s[0]] + s[1..i];
    assert s[..k] == s[..i] + s[i..k];
    NonSpaceAppend([s[0]] + s[1..i], t);
    NonSpaceAppend([s[0]], s[1..i]);
    NonSpaceOfSpaces(s[1..i]);
    assert NonSpace([s[0]]) == [s[0]] + NonSpace([]);
  }

  /** A spaced match of two or more classes does not end inside the spaces after its first
      character. */
  lemma SpacedSkip(s: string, cs: seq<set<char>>, k: nat)
    requires |cs| > 1 && 0 < k <= |s| && Spaced(s[..k], cs)
    ensures SkipSpaces(s, 1) < k
  {
    if k > 1 {
      assert !IsSpace(s[k - 1]);
    }
  }

  /** After the first class and the spaces that follow it, the rest of a spaced match is a
      spaced match of the remaining classes. */
  lemma SpacedStep(s: string, cs: seq<set<char>>, k: nat, i: nat)
    requires |cs| > 1
    requires 0 < k <= |s| && Spaced(s[..k], cs)
    requires i == SkipSpaces(s, 1)
    ensures i < k && Spaced(s[i..][..k - i], cs[1..])
  {
    var w := s[..k];
    SpacedSkip(s, cs, k);
    var t := s[i..k];
    NonSpaceAfterHead(s, i, k);
    assert t[0] == s[i] && t[|t| - 1] == w[k - 1];
    SpacedTail(w, t, cs);
    SliceParts(s, i, k);
  }

  /** A string whose non-space characters are those of a spaced match less the first, and
      which begins and ends with a non-space character, matches the remaining classes. */
  lemma SpacedTail(w: string, t: string, cs: seq<set<char>>)
    requires |cs| > 1 && Spaced(w, cs)
    requires t != [] && !IsSpace(t[0]) && !IsSpace(t[|t| - 1]) && NonSpace(t) == NonSpace(w)[1..]
    ensures Spaced(t, cs[1..])
  {
    forall j | 0 <= j < |cs| - 1 ensures NonSpace(t)[j] in cs[1..][j] {
      assert NonSpace(t)[j] == NonSpace(w)[j + 1];
    }
  }

  lemma {:induction false} MatchSpacedComplete(s: string, cs: seq<set<char>>, k: nat)
    requires |cs| >= 1 && NoSpaceIn(cs)
    requires 0 < k <= |s| && Spaced(s[..k], cs)
    ensures MatchSpaced(s, cs) == k
    decreases |cs|
  {
    var w := s[..k];
    NonSpaceHead(w);
    assert s[0] == w[0] == NonSpace(w)[0];
    if |cs| > 1 {
      var i := SkipSpaces(s, 1);
      SpacedStep(s, cs, k, i);
      assert NoSpaceIn(cs[1..]);
      MatchSpacedComplete(s[i..], cs[1..], k - i);
    } else if k > 1 {
      assert w[1..] != [] && w[1..][|w[1..]| - 1] == w[k - 1];
      NonSpaceNonEmpty(w[1..]);
    }
  }

  function MatchReal(s: string): (m: nat)
    ensures m <= |s|
  {
    var i := MatchSpaced(s, Classes(RealSubscript));
    if i > 0 && "eal" <= s[i..] then i + 3 else 0
  }

  lemma MatchRealCorrect(s: string)
    ensures var m := MatchReal(s);
      (m > 0 ==> Matches(RealSubscript, s[..m]))
      && forall k :: 0 < k <= |s| && Matches(RealSubscript, s[..k]) ==> k == m
  {
    MatchRealSound(s);
    forall k | 0 < k <= |s| && Matches(RealSubscript, s[..k]) ensures k == MatchReal(s) {
      MatchRealComplete(s, k);
    }
  }

  lemma MatchRealSound(s: string)
    ensures MatchReal(s) > 0 ==> Matches(RealSubscript, s[..MatchReal(s)])
  {
    var cs := Classes(RealSubscript);
    var i := MatchSpaced(s, cs);
    MatchSpacedSound(s, cs);
    if i > 0 && "eal" <= s[i..] {
      var w := s[..i + 3];
      assert w[..i] == s[..i];
      assert s[i..][..3] == "eal";
      assert w[i..] == s[i..][..3];
    }
  }

  lemma MatchRealComplete(s: string, k: nat)
    requires 0 < k <= |s| && Matches(RealSubscript, s[..k])
    ensures k == MatchReal(s)
  {
    var cs := Classes(RealSubscript);
    var w := s[..k];
    assert |w| == k >= 4;
    assert w[..k - 3] == s[..k - 3];
    MatchSpacedComplete(s, cs, k - 3);
    assert s[k - 3..][..3] == w[k - 3..] == "eal";
  }

  /** The length of the match of `p` at the head of `s`, or 0 when `p` does not match there. */
  function MatchLen(p: Pattern, s: string): (m: nat)
    ensures m <= |s|
  {
    match p
    case BlockMath => MatchBlock(s)
    case InlineMath => MatchInline(s)
    case RealSubscript => MatchReal(s)
    case _ => MatchSpaced(s, Classes(p))
  }

  /** `MatchLen` agrees with the regex: a positive result `m` is the one length for which
      `s[..m]` lies in the pattern's language, and 0 means that no prefix of `s` does. */
  lemma MatchLenCorrect(p: Pattern, s: string)
    ensures var m := MatchLen(p, s);
      (m > 0 ==> Matches(p, s[..m]))
      && (forall k :: 0 < k <= |s| && Matches(p, s[..k]) ==> k == m)
  {
    match p
    case BlockMath => MatchBlockCorrect(s);
    case InlineMath => MatchInlineCorrect(s);
    case RealSubscript => MatchRealCorrect(s);
    case _ =>
      var m := MatchSpaced(s, Classes(p));
      MatchSpacedSound(s, Classes(p));
      forall k | 0 < k <= |s| && Matches(p, s[..k]) ensures k == m {
        MatchSpacedComplete(s, Classes(p), k);
      }
  }

  // ---------------------------------------------------------------------------
  // What a match looks like

  lemma {:induction false} NonSpaceLast(w: string)
    requires w != [] && !IsSpace(w[|w| - 1])
    ensures NonSpace(w) == NonSpace(w[..|w| - 1]) + [w[|w| - 1]]
  {
    assert w == w[..|w| - 1] + [w[|w| - 1]];
    NonSpaceAppend(w[..|w| - 1], [w[|w| - 1]]);
  }

  lemma {:induction false} NonSpaceKeeps(w: string, i: nat)
    requires i < |w| && !IsSpace(w[i])
    ensures w[i] in NonSpace(w)
  {
    assert w == w[..i] + [w[i]] + w[i + 1..];
    NonSpaceAppend(w[..i] + [w[i]], w[i + 1..]);
    NonSpaceAppend(w[..i], [w[i]]);
  }

  lemma {:induction false} SpacedShape(w: string, cs: seq<set<char>>)
    requires Spaced(w, cs) && |cs| >= 1
    ensures w[0] in cs[0] && w[|w| - 1] in cs[|cs| - 1]
    ensures forall i :: 0 <= i < |w| && !IsSpace(w[i]) ==> exists j :: 0 <= j < |cs| && w[i] in cs[j]
  {
    NonSpaceHead(w);
    NonSpaceLast(w);
    forall i | 0 <= i < |w| && !IsSpace(w[i])
      ensures exists j :: 0 <= j < |cs| && w[i] in cs[j]
    {
      NonSpaceKeeps(w, i);
      var j :| 0 <= j < |NonSpace(w)| && NonSpace(w)[j] == w[i];
      assert w[i] in cs[j];
    }
  }

  lemma ClassesFacts(p: Pattern)
    requires p in MathPatterns
    ensures var cs := Classes(p);
      (forall j, c :: 0 <= j < |cs| && c in cs[j] ==> IsMathChar(c))
      && (forall c :: c in cs[0] ==> IsBoundaryChar(c))
      && (p != RealSubscript ==> forall c :: c in cs[|cs| - 1] ==> IsBoundaryChar(c))
  {
  }

  lemma {:induction false} SpacedMathShape(p: Pattern, w: string)
    requires p in MathPatterns && Spaced(w, Classes(p))
    ensures |w| >= 2 && IsBoundaryChar(w[0])
    ensures p != RealSubscript ==> IsBoundaryChar(w[|w| - 1])
    ensures forall i :: 0 <= i < |w| ==> IsSpace(w[i]) || IsMathChar(w[i])
  {
    var cs := Classes(p);
    SpacedShape(w, cs);
    ClassesFacts(p);
    NonSpaceHead(w);
  }

  /** Every match is at least two characters long and begins and ends with a boundary
      character; a match of one of the five math patterns holds nothing but whitespace and
      math characters. */
  lemma MatchShape(p: Pattern, w: string)
    requires Matches(p, w)
    ensures |w| >= 2 && IsBoundaryChar(w[0]) && IsBoundaryChar(w[|w| - 1])
    ensures p in MathPatterns ==> forall i :: 0 <= i < |w| ==> IsSpace(w[i]) || IsMathChar(w[i])
  {
    if p == RealSubscript {
      var v := w[..|w| - 3];
      SpacedMathShape(p, v);
      assert w[|w| - 1] == "eal"[2];
      forall i | 0 <= i < |w| ensures IsSpace(w[i]) || IsMathChar(w[i]) {
        if i < |v| {
          assert w[i] == v[i];
        } else {
          assert w[i] == "eal"[i - |v|];
        }
      }
    } else if p in MathPatterns {
      SpacedMathShape(p, w);
    }
  }
}
