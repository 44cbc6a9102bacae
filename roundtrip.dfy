/** Why undoing the records from last to first gives back the text `preserve_formulas` started
    from, provided that text holds no underscore.

    The proof follows the rewritten text as a sequence of pieces, each either one character of
    the input or one placeholder. No pattern match starts, ends or lies inside a placeholder,
    so every pass cuts the pieces at piece boundaries. Without an underscore in the input, a
    placeholder's text occurs in the spelled-out pieces only where that placeholder is. */
module RoundTrip {
  import opened Text
  import opened Patterns
  import opened FormulaGuard

  /** One character of the input, or the placeholder with counter `k`. */
  datatype Piece = Ch(c: char) | Tok(k: nat)

  function Show(p: Piece): string {
    match p
    case Ch(c) => [c]
    case Tok(k) => Placeholder(k)
  }

  /** The text the pieces spell. */
  function Flat(ps: seq<Piece>): string {
    if ps == [] then [] else Show(ps[0]) + Flat(ps[1..])
  }

  lemma {:induction false} FlatAppend(a: seq<Piece>, b: seq<Piece>)
    ensures Flat(a + b) == Flat(a) + Flat(b)
  {
    if a == [] {
      assert a + b == b;
    } else {
      assert (a + b)[1..] == a[1..] + b;
      FlatAppend(a[1..], b);
    }
  }

  /** The characters of `s`, one piece each. */
  function Chars(s: string): (ps: seq<Piece>)
    ensures |ps| == |s| && forall i :: 0 <= i < |s| ==> ps[i] == Ch(s[i])
  {
    if s == [] then [] else [Ch(s[0])] + Chars(s[1..])
  }

  lemma {:induction false} FlatChars(s: string)
    ensures Flat(Chars(s)) == s
  {
    if s != [] {
      FlatChars(s[1..]);
      assert Chars(s)[1..] == Chars(s[1..]);
    }
  }

  /** No input character among the pieces is an underscore. */
  predicate UserChars(ps: seq<Piece>) {
    forall i :: 0 <= i < |ps| && ps[i].Ch? ==> ps[i].c != '_'
  }

  /** Every placeholder among the pieces has a counter below `n`. */
  predicate TokensBelow(ps: seq<Piece>, n: nat) {
    forall i :: 0 <= i < |ps| && ps[i].Tok? ==> ps[i].k < n
  }

  /** No placeholder among the pieces has a counter in `[lo, hi)`. */
  predicate TokensOutside(ps: seq<Piece>, lo: nat, hi: nat) {
    forall i :: 0 <= i < |ps| && ps[i].Tok? ==> ps[i].k < lo || hi <= ps[i].k
  }

  // ---------------------------------------------------------------------------
  // Where a placeholder's text can occur

  lemma DecimalDigitsDistinct(j: nat, k: nat)
    requires j != k
    ensures DecimalDigits(j) != DecimalDigits(k)
  {
    DecimalRoundTrip(j);
    DecimalRoundTrip(k);
  }

  /** A placeholder's text never starts another placeholder's text. */
  lemma PlaceholderNotAtHead(j: nat, k: nat, x: string)
    requires j != k
    ensures !(Placeholder(k) <= Placeholder(j) + x)
  {
    var dj, dk := DecimalDigits(j), DecimalDigits(k);
    var pj, pk := Placeholder(j), Placeholder(k);
    var y := pj + x;
    if |dj| == |dk| {
      DecimalDigitsDistinct(j, k);
      assert pj != pk by {
        assert dj == pj[10..|pj| - 2];
        assert dk == pk[10..|pk| - 2];
      }
    } else if |dj| < |dk| {
      var i := 10 + |dj|;
      assert pj[i] == '_' && pk[i] == dk[|dj|] && y[i] == pj[i];
    } else {
      var i := 10 + |dk|;
      assert pk[i] == '_' && pj[i] == dj[|dk|] && y[i] == pj[i];
    }
  }

  /** Inside a placeholder, two underscores in a row stand only at its head and at its tail. */
  lemma PlaceholderUnderscores(j: nat, i: nat)
    requires 1 <= i < |Placeholder(j)| - 2
    ensures !(Placeholder(j)[i] == '_' && Placeholder(j)[i + 1] == '_')
  {
    var d, p := DecimalDigits(j), Placeholder(j);
    assert p[..10] == "__FORMULA_" && p[10..|p| - 2] == d;
    if i >= 10 {
      assert p[i] == d[i - 10];
    } else if i == 9 {
      assert p[10] == d[0];
    } else {
      assert p[i] == "__FORMULA_"[i] && p[i + 1] == "__FORMULA_"[i + 1];
    }
  }

  lemma PrefixTail(a: string, b: string)
    ensures a != [] && a <= b ==> a[1..] <= b[1..]
  {
    if a != [] && a <= b {
      assert a[1..] == b[1..][..|a| - 1];
    }
  }

  /** In text spelled by pieces with no underscore among the input characters, the first
      underscore is the head of a placeholder and so is followed by another one. */
  lemma {:induction false} NoLoneUnderscore(ps: seq<Piece>, u: string, d: char)
    requires UserChars(ps) && '_' !in u && d != '_'
    ensures !(u + ['_', d] <= Flat(ps))
  {
    if ps != [] {
      var x, rest := Flat(ps), Flat(ps[1..]);
      assert x == Show(ps[0]) + rest;
      match ps[0]
      case Ch(c) =>
        assert ps[0].c != '_';
        if u != [] {
          assert UserChars(ps[1..]) by {
            forall i | 0 <= i < |ps| - 1 && ps[1..][i].Ch? ensures ps[1..][i].c != '_' {
              assert ps[1..][i] == ps[i + 1];
            }
          }
          assert '_' !in u[1..];
          NoLoneUnderscore(ps[1..], u[1..], d);
          assert (u + ['_', d])[1..] == u[1..] + ['_', d];
          assert x[1..] == rest;
          PrefixTail(u + ['_', d], x);
        } else {
          assert u + ['_', d] == ['_', d] && x[0] == c;
        }
      case Tok(k) =>
        PlaceholderShape(k);
        assert x[0] == '_' && x[1] == '_';
    }
  }

  /** What follows `__` (or `_`) must begin with what follows those underscores in a placeholder. */
  lemma PlaceholderTail(k: nat, x: string)
    ensures Placeholder(k) <= "_" + x ==> "_F" <= x
    ensures Placeholder(k) <= "__" + x ==> "FORMULA" + ['_', DecimalDigits(k)[0]] <= x
  {
    var p := Placeholder(k);
    assert p[..11] == "__FORMULA_" + [DecimalDigits(k)[0]];
    assert p[1..3] == "_F";
    assert p[2..11] == "FORMULA" + ['_', DecimalDigits(k)[0]];
    if p <= "_" + x {
      assert p[1..3] == ("_" + x)[1..3] == x[..2];
    }
    if p <= "__" + x {
      assert p[2..11] == ("__" + x)[2..11] == x[..9];
    }
  }

  /** No occurrence of placeholder `k` starts at offset `i` of placeholder `j` when `j != k`,
      whatever pieces follow it. */
  lemma NoOccurrenceAt(j: nat, k: nat, rest: seq<Piece>, i: nat)
    requires j != k && UserChars(rest) && i < |Placeholder(j)|
    ensures !(Placeholder(k) <= (Placeholder(j) + Flat(rest))[i..])
  {
    var pj, x := Placeholder(j), Flat(rest);
    var l := |pj|;
    PlaceholderShape(j);
    SuffixFrom(pj, x, i);
    if i == 0 {
      PlaceholderNotAtHead(j, k, x);
    } else if i < l - 2 {
      NoOccurrenceInside(j, k, x, i);
    } else if i == l - 2 {
      NoOccurrenceAfterTwo(k, rest);
    } else {
      assert pj[i..] == "_";
      NoOccurrenceAfterOne(k, rest);
    }
  }

  lemma SuffixFrom(a: string, b: string, i: nat)
    requires i <= |a|
    ensures (a + b)[i..] == a[i..] + b
  {
  }

  /** Inside a placeholder, before its closing `__`, no placeholder starts: a placeholder
      begins with `__`, and the only `__` of a placeholder are its first two and last two
      characters. */
  lemma NoOccurrenceInside(j: nat, k: nat, x: string, i: nat)
    requires 0 < i < |Placeholder(j)| - 2
    ensures !(Placeholder(k) <= Placeholder(j)[i..] + x)
  {
    var pj, pk := Placeholder(j), Placeholder(k);
    PlaceholderUnderscores(j, i);
    PlaceholderShape(k);
    assert pk[0] == '_' && pk[1] == '_';
    assert (pj[i..] + x)[0] == pj[i] && (pj[i..] + x)[1] == pj[i + 1];
  }

  /** After a placeholder's closing `__`, the pieces cannot go on with `FORMULA_`. */
  lemma NoOccurrenceAfterTwo(k: nat, rest: seq<Piece>)
    requires UserChars(rest)
    ensures !(Placeholder(k) <= "__" + Flat(rest))
  {
    PlaceholderTail(k, Flat(rest));
    NoLoneUnderscore(rest, "FORMULA", DecimalDigits(k)[0]);
  }

  /** After a placeholder's last `_`, the pieces cannot go on with `_F`. */
  lemma NoOccurrenceAfterOne(k: nat, rest: seq<Piece>)
    requires UserChars(rest)
    ensures !(Placeholder(k) <= "_" + Flat(rest))
  {
    PlaceholderTail(k, Flat(rest));
    NoLoneUnderscore(rest, [], 'F');
  }

  /** No occurrence of placeholder `k` starts inside placeholder `j` when `j != k`, whatever
      pieces follow it. */
  lemma TokenNoOccurrence(j: nat, k: nat, rest: seq<Piece>)
    requires j != k && UserChars(rest)
    ensures forall i :: 0 <= i < |Placeholder(j)| ==> !(Placeholder(k) <= (Placeholder(j) + Flat(rest))[i..])
  {
    forall i | 0 <= i < |Placeholder(j)| ensures !(Placeholder(k) <= (Placeholder(j) + Flat(rest))[i..]) {
      NoOccurrenceAt(j, k, rest, i);
    }
  }

  // ---------------------------------------------------------------------------
  // Restoring one record, on pieces

  /** `ps` with every placeholder `k` spelled out as the pieces `os`. */
  function Expand(ps: seq<Piece>, k: nat, os: seq<Piece>): seq<Piece> {
    if ps == [] then [] else (if ps[0] == Tok(k) then os else [ps[0]]) + Expand(ps[1..], k, os)
  }

  lemma {:induction false} ExpandChars(ps: seq<Piece>, k: nat, os: seq<Piece>)
    requires UserChars(ps) && UserChars(os)
    ensures UserChars(Expand(ps, k, os))
  {
    if ps != [] {
      ExpandChars(ps[1..], k, os);
    }
  }

  /** `str.replace` of placeholder `k` by what `os` spells is placeholder `k` spelled out as
      `os`: the placeholder's text occurs exactly where the placeholder stands. */
  lemma {:induction false} ReplaceFlat(ps: seq<Piece>, k: nat, os: seq<Piece>)
    requires UserChars(ps)
    ensures ReplaceAll(Flat(ps), Placeholder(k), Flat(os)) == Flat(Expand(ps, k, os))
  {
    if ps != [] {
      var pk, r := Placeholder(k), Flat(os);
      var rest := ps[1..];
      var x := Flat(ps);
      assert x == Show(ps[0]) + Flat(rest);
      PlaceholderShape(k);
      ReplaceFlat(rest, k, os);
      var head := if ps[0] == Tok(k) then os else [ps[0]];
      FlatAppend(head, Expand(rest, k, os));
      match ps[0]
      case Ch(c) =>
        assert c != '_' && x[0] == c && x[1..] == Flat(rest);
        ReplaceAllCopy(x, pk, r);
        assert Flat(head) == [c];
      case Tok(j) =>
        if j == k {
          ReplaceAllHead(Flat(rest), pk, r);
        } else {
          TokenNoOccurrence(j, k, rest);
          ReplaceAllSkip(Placeholder(j), Flat(rest), pk, r);
          assert Flat(head) == Placeholder(j);
        }
    }
  }

  // ---------------------------------------------------------------------------
  // One pass, on pieces

  /** The match `f` reports at the head of `s`, if any, begins and ends with a character that
      is not a placeholder character. */
  predicate InertAt(f: Matcher, s: string) {
    Hit(f, s) > 0 ==> !IsPlaceholderChar(s[0]) && !IsPlaceholderChar(s[Hit(f, s) - 1])
  }

  /** Every match `f` reports begins and ends with a character that is not a placeholder
      character. */
  ghost predicate Inert(f: Matcher) {
    forall s :: InertAt(f, s)
  }

  lemma PatternMatcherInert(p: Pattern)
    ensures Inert(PatternMatcher(p))
  {
    forall s ensures InertAt(PatternMatcher(p), s) {
      PatternMatcherInertAt(p, s);
    }
  }

  lemma PatternMatcherInertAt(p: Pattern, s: string)
    ensures InertAt(PatternMatcher(p), s)
  {
    var m := Hit(PatternMatcher(p), s);
    if m > 0 {
      var w := s[..m];
      MatchLenCorrect(p, s);
      MatchShape(p, w);
      BoundaryNotPlaceholder(w[0]);
      BoundaryNotPlaceholder(w[m - 1]);
    }
  }

  lemma BoundaryNotPlaceholder(c: char)
    requires IsBoundaryChar(c)
    ensures !IsPlaceholderChar(c)
  {
  }

  /** No match starts at a placeholder character. */
  lemma InertHead(f: Matcher, y: string)
    requires Inert(f) && y != [] && IsPlaceholderChar(y[0])
    ensures Hit(f, y) == 0
  {
    assert InertAt(f, y);
  }

  /** Where nothing matches at the head, the first character is copied. */
  lemma SubstituteAllCopy(f: Matcher, y: string, n: nat)
    requires y != [] && Hit(f, y) == 0
    ensures var rest := SubstituteAll(f, y[1..], n);
      SubstituteAll(f, y, n) == Protected([y[0]] + rest.text, rest.formulas)
  {
  }

  lemma ConsAppend(w: string, z: string)
    requires w != []
    ensures [w[0]] + (w[1..] + z) == w + z
  {
  }

  /** A pass copies a run of placeholder characters unchanged and records nothing in it. */
  lemma {:induction false} SkipInert(f: Matcher, w: string, x: string, n: nat)
    requires Inert(f) && forall i :: 0 <= i < |w| ==> IsPlaceholderChar(w[i])
    ensures var r := SubstituteAll(f, x, n);
      SubstituteAll(f, w + x, n) == Protected(w + r.text, r.formulas)
  {
    var r := SubstituteAll(f, x, n);
    if w == [] {
      assert w + x == x;
    } else {
      var y := w + x;
      assert y[0] == w[0];
      InertHead(f, y);
      SubstituteAllCopy(f, y, n);
      assert y[1..] == w[1..] + x;
      SkipInert(f, w[1..], x, n);
      ConsAppend(w, r.text);
    }
  }

  /** The number of leading pieces needed to spell at least `m` characters. */
  function Cut(ps: seq<Piece>, m: nat): (t: nat)
    ensures t <= |ps|
    ensures m > 0 && ps != [] ==> t >= 1
  {
    if m == 0 || ps == [] then 0
    else 1 + Cut(ps[1..], if |Show(ps[0])| >= m then 0 else m - |Show(ps[0])|)
  }

  lemma FlatHead(ps: seq<Piece>)
    requires ps != []
    ensures Flat(ps) == Show(ps[0]) + Flat(ps[1..])
    ensures Flat([ps[0]]) == Show(ps[0])
  {
    assert [ps[0]][1..] == [];
  }

  lemma TakeCons(ps: seq<Piece>, t: nat)
    requires t < |ps|
    ensures ps[..t + 1] == [ps[0]] + ps[1..][..t]
  {
  }

  /** A character at index `m - 1` that is not a placeholder character lies past a leading
      placeholder piece. */
  lemma CutHead(ps: seq<Piece>, m: nat)
    requires ps != [] && 0 < m <= |Flat(ps)| && !IsPlaceholderChar(Flat(ps)[m - 1])
    ensures |Show(ps[0])| < m || ps[0].Ch?
  {
    FlatHead(ps);
    if ps[0].Tok? {
      PlaceholderShape(ps[0].k);
    }
  }

  /** When the `m`-th character is not a placeholder character, the first `m` characters are
      spelled by whole pieces: `Cut(ps, m)` of them. */
  lemma {:induction false} CutAt(ps: seq<Piece>, m: nat)
    requires 0 < m <= |Flat(ps)| && !IsPlaceholderChar(Flat(ps)[m - 1])
    ensures |Flat(ps[..Cut(ps, m)])| == m
    decreases |ps|, 1
  {
    var h, rest := Show(ps[0]), ps[1..];
    var x, y := Flat(ps), Flat(rest);
    FlatHead(ps);
    CutHead(ps, m);
    if |h| >= m {
      assert Cut(ps, m) == 1 && ps[..1] == [ps[0]];
    } else {
      CutRest(ps, m);
    }
  }

  lemma {:induction false} CutRest(ps: seq<Piece>, m: nat)
    requires ps != [] && |Show(ps[0])| < m <= |Flat(ps)| && !IsPlaceholderChar(Flat(ps)[m - 1])
    ensures |Flat(ps[..Cut(ps, m)])| == m
    decreases |ps|, 0
  {
    var k := m - |Show(ps[0])|;
    var t := Cut(ps[1..], k);
    CutCons(ps, m);
    FlatTail(ps, m - 1);
    CutAt(ps[1..], k);
    FlatTakeCons(ps, t);
  }

  lemma CutCons(ps: seq<Piece>, m: nat)
    requires ps != [] && |Show(ps[0])| < m
    ensures Cut(ps, m) == 1 + Cut(ps[1..], m - |Show(ps[0])|)
  {
  }

  /** Past the first piece, the text of the rest is the text of all with the first piece's
      characters removed. */
  lemma FlatTail(ps: seq<Piece>, i: nat)
    requires ps != [] && |Show(ps[0])| <= i < |Flat(ps)|
    ensures var k := i + 1 - |Show(ps[0])|;
      0 < k <= |Flat(ps[1..])| && Flat(ps[1..])[k - 1] == Flat(ps)[i]
  {
    FlatHead(ps);
  }

  lemma FlatTakeCons(ps: seq<Piece>, t: nat)
    requires t < |ps|
    ensures |Flat(ps[..t + 1])| == |Show(ps[0])| + |Flat(ps[1..][..t])|
  {
    TakeCons(ps, t);
    FlatAppend([ps[0]], ps[1..][..t]);
    FlatSingle(ps[0]);
  }

  lemma FlatSingle(p: Piece)
    ensures Flat([p]) == Show(p)
  {
    assert [p][1..] == [];
  }

  /** What a pass leaves, on pieces: the new pieces, and for each record the pieces its
      original is spelled by. */
  datatype Split = Split(pieces: seq<Piece>, origs: seq<seq<Piece>>)

  /** `SubstituteAll` on pieces: a match is looked for only at an input character, and what
      it covers becomes one placeholder piece. */
  function PassP(f: Matcher, ps: seq<Piece>, n: nat): Split
    decreases |ps|
  {
    if ps == [] then Split([], [])
    else
      var m := if ps[0].Ch? then Hit(f, Flat(ps)) else 0;
      if m > 0 then
        var t := Cut(ps, m);
        var r := PassP(f, ps[t..], n + 1);
        Split([Tok(n)] + r.pieces, [ps[..t]] + r.origs)
      else
        var r := PassP(f, ps[1..], n);
        Split([ps[0]] + r.pieces, r.origs)
  }

  /** Record `i` of `fs` holds what `os[i]` spells. */
  predicate Spells(fs: seq<Formula>, os: seq<seq<Piece>>) {
    |fs| == |os| && forall i :: 0 <= i < |fs| ==> fs[i].original == Flat(os[i])
  }

  lemma SpellsAppend(fs: seq<Formula>, os: seq<seq<Piece>>, gs: seq<Formula>, qs: seq<seq<Piece>>)
    requires Spells(fs, os) && Spells(gs, qs)
    ensures Spells(fs + gs, os + qs)
  {
    forall i | |fs| <= i < |fs| + |gs| ensures (fs + gs)[i].original == Flat((os + qs)[i]) {
      assert (fs + gs)[i] == gs[i - |fs|] && (os + qs)[i] == qs[i - |fs|];
    }
  }

  /** The pass on pieces spells what `SubstituteAll` produces on their text. */
  predicate PassSpelled(f: Matcher, ps: seq<Piece>, n: nat) {
    var o, r := PassP(f, ps, n), SubstituteAll(f, Flat(ps), n);
    r.text == Flat(o.pieces) && Spells(r.formulas, o.origs)
  }

  lemma PassFlatTok(f: Matcher, ps: seq<Piece>, n: nat)
    requires Inert(f) && ps != [] && ps[0].Tok? && PassSpelled(f, ps[1..], n)
    ensures PassSpelled(f, ps, n)
  {
    var w, o := Show(ps[0]), PassP(f, ps[1..], n);
    FlatHead(ps);
    PlaceholderShape(ps[0].k);
    SkipInert(f, w, Flat(ps[1..]), n);
    assert PassP(f, ps, n) == Split([ps[0]] + o.pieces, o.origs);
    FlatAppend([ps[0]], o.pieces);
  }

  lemma PassFlatCopy(f: Matcher, ps: seq<Piece>, n: nat)
    requires ps != [] && ps[0].Ch? && Hit(f, Flat(ps)) == 0 && PassSpelled(f, ps[1..], n)
    ensures PassSpelled(f, ps, n)
  {
    var o := PassP(f, ps[1..], n);
    FlatHead(ps);
    SubstituteAllCopy(f, Flat(ps), n);
    assert Flat(ps)[1..] == Flat(ps[1..]);
    assert PassP(f, ps, n) == Split([ps[0]] + o.pieces, o.origs);
    FlatAppend([ps[0]], o.pieces);
  }

  lemma FlatSplit(ps: seq<Piece>, t: nat)
    requires t <= |ps|
    ensures Flat(ps) == Flat(ps[..t]) + Flat(ps[t..])
  {
    assert ps == ps[..t] + ps[t..];
    FlatAppend(ps[..t], ps[t..]);
  }

  /** A match at the head of the text covers whole pieces. */
  lemma MatchCut(f: Matcher, ps: seq<Piece>)
    requires Inert(f) && ps != [] && Hit(f, Flat(ps)) > 0
    ensures var x, m := Flat(ps), Hit(f, Flat(ps)); var t := Cut(ps, m);
      x[..m] == Flat(ps[..t]) && x[m..] == Flat(ps[t..])
  {
    var x := Flat(ps);
    var m := Hit(f, x);
    var t := Cut(ps, m);
    assert InertAt(f, x);
    CutAt(ps, m);
    FlatSplit(ps, t);
  }

  lemma PassFlatMatch(f: Matcher, ps: seq<Piece>, n: nat)
    requires Inert(f) && ps != [] && ps[0].Ch? && Hit(f, Flat(ps)) > 0
    requires PassSpelled(f, ps[Cut(ps, Hit(f, Flat(ps)))..], n + 1)
    ensures PassSpelled(f, ps, n)
  {
    var x := Flat(ps);
    var m := Hit(f, x);
    var t := Cut(ps, m);
    var o := PassP(f, ps[t..], n + 1);
    var rest := SubstituteAll(f, x[m..], n + 1);
    MatchCut(f, ps);
    assert PassP(f, ps, n) == Split([Tok(n)] + o.pieces, [ps[..t]] + o.origs);
    assert SubstituteAll(f, x, n) == Protected(Placeholder(n) + rest.text, [Formula(Placeholder(n), x[..m])] + rest.formulas);
    FlatAppend([Tok(n)], o.pieces);
    FlatHead([Tok(n)]);
    SpellsAppend([Formula(Placeholder(n), x[..m])], [ps[..t]], rest.formulas, o.origs);
  }

  lemma {:induction false} PassFlat(f: Matcher, ps: seq<Piece>, n: nat)
    requires Inert(f)
    ensures PassSpelled(f, ps, n)
    decreases |ps|
  {
    if ps != [] {
      if ps[0].Tok? {
        PassFlat(f, ps[1..], n);
        PassFlatTok(f, ps, n);
      } else if Hit(f, Flat(ps)) > 0 {
        PassFlat(f, ps[Cut(ps, Hit(f, Flat(ps)))..], n + 1);
        PassFlatMatch(f, ps, n);
      } else {
        PassFlat(f, ps[1..], n);
        PassFlatCopy(f, ps, n);
      }
    }
  }

  /** Every record's pieces satisfy `UserChars`. */
  predicate AllUserChars(os: seq<seq<Piece>>) {
    forall i :: 0 <= i < |os| ==> UserChars(os[i])
  }

  /** Every record's pieces have placeholders below `n`. */
  predicate AllTokensBelow(os: seq<seq<Piece>>, n: nat) {
    forall i :: 0 <= i < |os| ==> TokensBelow(os[i], n)
  }

  /** A pass keeps input characters as they are, in the new pieces and in the records. */
  lemma {:induction false} PassChars(f: Matcher, ps: seq<Piece>, n: nat)
    requires UserChars(ps)
    ensures var o := PassP(f, ps, n); UserChars(o.pieces) && AllUserChars(o.origs)
    decreases |ps|
  {
    if ps != [] {
      var o := PassP(f, ps, n);
      var m := if ps[0].Ch? then Hit(f, Flat(ps)) else 0;
      if m > 0 {
        var t := Cut(ps, m);
        PassChars(f, ps[t..], n + 1);
        var r := PassP(f, ps[t..], n + 1);
        assert o.origs == [ps[..t]] + r.origs;
      } else {
        PassChars(f, ps[1..], n);
      }
    }
  }

  lemma BelowSlices(ps: seq<Piece>, lo: nat, t: nat)
    requires TokensBelow(ps, lo) && t <= |ps|
    ensures TokensBelow(ps[..t], lo) && TokensBelow(ps[t..], lo)
  {
    forall i | 0 <= i < |ps| - t ensures ps[t..][i] == ps[t + i] { }
  }

  lemma ConsTokens(p: Piece, qs: seq<Piece>, lo: nat, hi: nat, top: nat)
    requires TokensBelow(qs, top) && TokensOutside(qs, lo, hi)
    requires p.Tok? ==> p.k < top && (p.k < lo || hi <= p.k)
    ensures TokensBelow([p] + qs, top) && TokensOutside([p] + qs, lo, hi)
  {
    forall i | 1 <= i < |qs| + 1 ensures ([p] + qs)[i] == qs[i - 1] { }
  }

  lemma ConsAllBelow(a: seq<Piece>, os: seq<seq<Piece>>, lo: nat)
    requires TokensBelow(a, lo) && AllTokensBelow(os, lo)
    ensures AllTokensBelow([a] + os, lo)
  {
    forall i | 1 <= i < |os| + 1 ensures ([a] + os)[i] == os[i - 1] { }
  }

  /** A pass started at counter `n` on pieces whose placeholders are below `lo <= n` leaves
      placeholders below `lo` or numbered from `n` on, and records pieces with placeholders
      below `lo` only. */
  lemma {:induction false} PassTokens(f: Matcher, ps: seq<Piece>, lo: nat, n: nat)
    requires TokensBelow(ps, lo) && lo <= n
    ensures var o := PassP(f, ps, n);
      TokensBelow(o.pieces, n + |o.origs|) && TokensOutside(o.pieces, lo, n) && AllTokensBelow(o.origs, lo)
    decreases |ps|
  {
    if ps != [] {
      var m := if ps[0].Ch? then Hit(f, Flat(ps)) else 0;
      if m > 0 {
        var t := Cut(ps, m);
        BelowSlices(ps, lo, t);
        PassTokens(f, ps[t..], lo, n + 1);
        var r := PassP(f, ps[t..], n + 1);
        ConsTokens(Tok(n), r.pieces, lo, n, n + 1 + |r.origs|);
        ConsAllBelow(ps[..t], r.origs, lo);
      } else {
        BelowSlices(ps, lo, 1);
        PassTokens(f, ps[1..], lo, n);
        var r := PassP(f, ps[1..], n);
        ConsTokens(ps[0], r.pieces, lo, n, n + |r.origs|);
      }
    }
  }

  // ---------------------------------------------------------------------------
  // Spelling records out

  /** One piece with each placeholder `n + i`, `i < |os|`, spelled out as `os[i]`. */
  function InlineOne(p: Piece, n: nat, os: seq<seq<Piece>>): seq<Piece> {
    if p.Tok? && n <= p.k < n + |os| then os[p.k - n] else [p]
  }

  /** All placeholders `n + i`, `i < |os|`, spelled out at once as `os[i]`. */
  function Inline(ps: seq<Piece>, n: nat, os: seq<seq<Piece>>): seq<Piece> {
    if ps == [] then [] else InlineOne(ps[0], n, os) + Inline(ps[1..], n, os)
  }

  lemma {:induction false} InlineAppend(a: seq<Piece>, b: seq<Piece>, n: nat, os: seq<seq<Piece>>)
    ensures Inline(a + b, n, os) == Inline(a, n, os) + Inline(b, n, os)
  {
    if a == [] {
      assert a + b == b;
    } else {
      assert (a + b)[1..] == a[1..] + b;
      InlineAppend(a[1..], b, n, os);
    }
  }

  /** Pieces with no placeholder from `n` on are left as they are. */
  lemma {:induction false} InlineBelow(ps: seq<Piece>, n: nat, os: seq<seq<Piece>>)
    requires TokensBelow(ps, n)
    ensures Inline(ps, n, os) == ps
  {
    if ps != [] {
      InlineBelow(ps[1..], n, os);
    }
  }

  /** With no records, nothing is spelled out. */
  lemma {:induction false} InlineNone(ps: seq<Piece>, n: nat)
    ensures Inline(ps, n, []) == ps
  {
    if ps != [] {
      InlineNone(ps[1..], n);
    }
  }

  lemma InlineOneShift(p: Piece, n: nat, a: seq<Piece>, os: seq<seq<Piece>>)
    requires p != Tok(n)
    ensures InlineOne(p, n, [a] + os) == InlineOne(p, n + 1, os)
  {
    if p.Tok? && n + 1 <= p.k < n + 1 + |os| {
      assert ([a] + os)[p.k - n] == os[p.k - (n + 1)];
    }
  }

  /** Spelling out from `n` with `a` in front is spelling out from `n + 1`, where no
      placeholder `n` stands. */
  lemma {:induction false} InlineShift(ps: seq<Piece>, n: nat, a: seq<Piece>, os: seq<seq<Piece>>)
    requires TokensOutside(ps, n, n + 1)
    ensures Inline(ps, n, [a] + os) == Inline(ps, n + 1, os)
  {
    if ps != [] {
      assert TokensOutside(ps[1..], n, n + 1) by {
        forall i | 0 <= i < |ps| - 1 ensures ps[1..][i] == ps[i + 1] { }
      }
      InlineShift(ps[1..], n, a, os);
      InlineOneShift(ps[0], n, a, os);
    }
  }

  /** Spelling the records of a pass out gives back the pieces the pass started from. */
  predicate PassUndone(f: Matcher, ps: seq<Piece>, n: nat) {
    var o := PassP(f, ps, n);
    Inline(o.pieces, n, o.origs) == ps
  }

  lemma PiecesSplit(ps: seq<Piece>, t: nat)
    requires t <= |ps|
    ensures ps[..t] + ps[t..] == ps
  {
  }

  lemma InlineCons(p: Piece, qs: seq<Piece>, n: nat, os: seq<seq<Piece>>)
    ensures Inline([p] + qs, n, os) == InlineOne(p, n, os) + Inline(qs, n, os)
  {
    assert ([p] + qs)[1..] == qs;
  }

  lemma PassInlineMatch(f: Matcher, ps: seq<Piece>, n: nat)
    requires ps != [] && ps[0].Ch? && Hit(f, Flat(ps)) > 0
    requires var r := PassP(f, ps[Cut(ps, Hit(f, Flat(ps)))..], n + 1);
      TokensOutside(r.pieces, n, n + 1) && Inline(r.pieces, n + 1, r.origs) == ps[Cut(ps, Hit(f, Flat(ps)))..]
    ensures PassUndone(f, ps, n)
  {
    var t := Cut(ps, Hit(f, Flat(ps)));
    var r := PassP(f, ps[t..], n + 1);
    var os := [ps[..t]] + r.origs;
    assert PassP(f, ps, n) == Split([Tok(n)] + r.pieces, os);
    InlineCons(Tok(n), r.pieces, n, os);
    InlineShift(r.pieces, n, ps[..t], r.origs);
    assert InlineOne(Tok(n), n, os) == ps[..t];
    PiecesSplit(ps, t);
  }

  lemma PassInlineCopy(f: Matcher, ps: seq<Piece>, n: nat)
    requires ps != [] && (if ps[0].Ch? then Hit(f, Flat(ps)) == 0 else ps[0].k < n)
    requires PassUndone(f, ps[1..], n)
    ensures PassUndone(f, ps, n)
  {
    var r := PassP(f, ps[1..], n);
    assert PassP(f, ps, n) == Split([ps[0]] + r.pieces, r.origs);
    InlineCons(ps[0], r.pieces, n, r.origs);
    PiecesSplit(ps, 1);
  }

  /** The pass on pieces is undone by spelling its records out. */
  lemma {:induction false} PassInline(f: Matcher, ps: seq<Piece>, lo: nat, n: nat)
    requires TokensBelow(ps, lo) && lo <= n
    ensures PassUndone(f, ps, n)
    decreases |ps|
  {
    if ps != [] {
      var m := if ps[0].Ch? then Hit(f, Flat(ps)) else 0;
      if m > 0 {
        var t := Cut(ps, m);
        BelowSlices(ps, lo, t);
        PassInline(f, ps[t..], lo, n + 1);
        PassTokens(f, ps[t..], lo, n + 1);
        PassInlineMatch(f, ps, n);
      } else {
        BelowSlices(ps, lo, 1);
        PassInline(f, ps[1..], lo, n);
        PassInlineCopy(f, ps, n);
      }
    }
  }

  /** Records `os` spelled out one at a time from the last, as restoring in reverse does. */
  function Unfold(ps: seq<Piece>, n: nat, os: seq<seq<Piece>>): seq<Piece>
    decreases |os|
  {
    if os == [] then ps
    else Unfold(Expand(ps, n + |os| - 1, os[|os| - 1]), n, os[..|os| - 1])
  }

  /** Unfolding a run of records is unfolding its later part, then its earlier part. */
  lemma {:induction false} UnfoldAppend(ps: seq<Piece>, n: nat, a: seq<seq<Piece>>, b: seq<seq<Piece>>)
    ensures Unfold(ps, n, a + b) == Unfold(Unfold(ps, n + |a|, b), n, a)
    decreases |b|
  {
    if b == [] {
      assert a + b == a;
    } else {
      var ab := a + b;
      assert ab[|ab| - 1] == b[|b| - 1];
      assert ab[..|ab| - 1] == a + b[..|b| - 1];
      UnfoldAppend(Expand(ps, n + |ab| - 1, b[|b| - 1]), n, a, b[..|b| - 1]);
    }
  }

  lemma InlineExpandHead(p: Piece, n: nat, os: seq<seq<Piece>>, last: seq<Piece>)
    requires TokensBelow(last, n)
    ensures Inline(if p == Tok(n + |os|) then last else [p], n, os) == InlineOne(p, n, os + [last])
  {
    if p == Tok(n + |os|) {
      InlineBelow(last, n, os);
    } else {
      assert [p][1..] == [];
      if p.Tok? && n <= p.k < n + |os| {
        assert (os + [last])[p.k - n] == os[p.k - n];
      }
    }
  }

  /** Spelling out the last record first, then the rest at once, is spelling all at once,
      when the last record holds no placeholder from `n` on. */
  lemma {:induction false} InlineExpand(ps: seq<Piece>, n: nat, os: seq<seq<Piece>>, last: seq<Piece>)
    requires TokensBelow(last, n)
    ensures Inline(Expand(ps, n + |os|, last), n, os) == Inline(ps, n, os + [last])
  {
    if ps != [] {
      var p, k := ps[0], n + |os|;
      var head := if p == Tok(k) then last else [p];
      calc {
        Inline(Expand(ps, k, last), n, os);
        Inline(head + Expand(ps[1..], k, last), n, os);
        { InlineAppend(head, Expand(ps[1..], k, last), n, os); }
        Inline(head, n, os) + Inline(Expand(ps[1..], k, last), n, os);
        { InlineExpandHead(p, n, os, last); InlineExpand(ps[1..], n, os, last); }
        InlineOne(p, n, os + [last]) + Inline(ps[1..], n, os + [last]);
        Inline(ps, n, os + [last]);
      }
    }
  }

  /** Records holding no placeholder from `n` on unfold exactly as they spell out at once. */
  lemma {:induction false} UnfoldInline(ps: seq<Piece>, n: nat, os: seq<seq<Piece>>)
    requires AllTokensBelow(os, n)
    ensures Unfold(ps, n, os) == Inline(ps, n, os)
    decreases |os|
  {
    if os == [] {
      InlineNone(ps, n);
    } else {
      var init, last := os[..|os| - 1], os[|os| - 1];
      UnfoldInline(Expand(ps, n + |init|, last), n, init);
      InlineExpand(ps, n, init, last);
      assert init + [last] == os;
    }
  }

  // ---------------------------------------------------------------------------
  // All passes, and the round trip

  /** `RunPasses` on pieces. */
  function RunP(ms: seq<Matcher>, ps: seq<Piece>, n: nat): Split
    decreases |ms|
  {
    if ms == [] then Split(ps, [])
    else
      var o := PassP(ms[0], ps, n);
      var r := RunP(ms[1..], o.pieces, n + |o.origs|);
      Split(r.pieces, o.origs + r.origs)
  }

  ghost predicate AllInert(ms: seq<Matcher>) {
    forall j :: 0 <= j < |ms| ==> Inert(ms[j])
  }

  lemma AllInertTail(ms: seq<Matcher>)
    requires ms != [] && AllInert(ms)
    ensures Inert(ms[0]) && AllInert(ms[1..])
  {
    forall j | 0 <= j < |ms| - 1 ensures ms[1..][j] == ms[j + 1] { }
  }

  /** The passes on pieces spell what `RunPasses` produces on their text. */
  predicate RunSpelled(ms: seq<Matcher>, ps: seq<Piece>, n: nat) {
    var o, r := RunP(ms, ps, n), RunPasses(ms, Flat(ps), n);
    r.text == Flat(o.pieces) && Spells(r.formulas, o.origs)
  }

  lemma RunFlatStep(ms: seq<Matcher>, ps: seq<Piece>, n: nat)
    requires ms != [] && PassSpelled(ms[0], ps, n)
    requires RunSpelled(ms[1..], PassP(ms[0], ps, n).pieces, n + |PassP(ms[0], ps, n).origs|)
    ensures RunSpelled(ms, ps, n)
  {
    var first, o := SubstituteAll(ms[0], Flat(ps), n), PassP(ms[0], ps, n);
    var n' := n + |o.origs|;
    assert first.text == Flat(o.pieces) && Spells(first.formulas, o.origs);
    var rr, ro := RunPasses(ms[1..], Flat(o.pieces), n'), RunP(ms[1..], o.pieces, n');
    assert rr.text == Flat(ro.pieces) && Spells(rr.formulas, ro.origs);
    SpellsAppend(first.formulas, o.origs, rr.formulas, ro.origs);
    RunPassesCons(ms, Flat(ps), n, first, rr);
    RunPCons(ms, ps, n, o, ro);
  }

  lemma RunPassesCons(ms: seq<Matcher>, s: string, n: nat, first: Protected, rest: Protected)
    requires ms != [] && first == SubstituteAll(ms[0], s, n)
    requires rest == RunPasses(ms[1..], first.text, n + |first.formulas|)
    ensures RunPasses(ms, s, n) == Protected(rest.text, first.formulas + rest.formulas)
  {
  }

  lemma RunPCons(ms: seq<Matcher>, ps: seq<Piece>, n: nat, o: Split, r: Split)
    requires ms != [] && o == PassP(ms[0], ps, n) && r == RunP(ms[1..], o.pieces, n + |o.origs|)
    ensures RunP(ms, ps, n) == Split(r.pieces, o.origs + r.origs)
  {
  }

  lemma {:induction false} RunFlat(ms: seq<Matcher>, ps: seq<Piece>, n: nat)
    requires AllInert(ms)
    ensures RunSpelled(ms, ps, n)
    decreases |ms|
  {
    if ms != [] {
      AllInertTail(ms);
      var o := PassP(ms[0], ps, n);
      PassFlat(ms[0], ps, n);
      RunFlat(ms[1..], o.pieces, n + |o.origs|);
      RunFlatStep(ms, ps, n);
    }
  }

  lemma AllUserCharsAppend(os: seq<seq<Piece>>, qs: seq<seq<Piece>>)
    requires AllUserChars(os) && AllUserChars(qs)
    ensures AllUserChars(os + qs)
  {
    forall i | |os| <= i < |os| + |qs| ensures (os + qs)[i] == qs[i - |os|] { }
  }

  /** Input characters stay as they are through all passes. */
  lemma {:induction false} RunChars(ms: seq<Matcher>, ps: seq<Piece>, n: nat)
    requires UserChars(ps)
    ensures var o := RunP(ms, ps, n); UserChars(o.pieces) && AllUserChars(o.origs)
    decreases |ms|
  {
    if ms != [] {
      var o := PassP(ms[0], ps, n);
      PassChars(ms[0], ps, n);
      RunChars(ms[1..], o.pieces, n + |o.origs|);
      AllUserCharsAppend(o.origs, RunP(ms[1..], o.pieces, n + |o.origs|).origs);
    }
  }

  /** Unfolding all records, last first, gives back the pieces the passes started from. */
  predicate RunUndone(ms: seq<Matcher>, ps: seq<Piece>, n: nat) {
    var o := RunP(ms, ps, n);
    Unfold(o.pieces, n, o.origs) == ps
  }

  lemma {:induction false} RunUnfold(ms: seq<Matcher>, ps: seq<Piece>, n: nat)
    requires TokensBelow(ps, n)
    ensures RunUndone(ms, ps, n)
    decreases |ms|
  {
    if ms != [] {
      var o := PassP(ms[0], ps, n);
      PassTokens(ms[0], ps, n, n);
      PassInline(ms[0], ps, n, n);
      RunUnfold(ms[1..], o.pieces, n + |o.origs|);
      RunUnfoldStep(ms, ps, n);
    }
  }

  lemma RunUnfoldStep(ms: seq<Matcher>, ps: seq<Piece>, n: nat)
    requires ms != [] && PassUndone(ms[0], ps, n)
    requires AllTokensBelow(PassP(ms[0], ps, n).origs, n)
    requires RunUndone(ms[1..], PassP(ms[0], ps, n).pieces, n + |PassP(ms[0], ps, n).origs|)
    ensures RunUndone(ms, ps, n)
  {
    var o := PassP(ms[0], ps, n);
    var n' := n + |o.origs|;
    var r := RunP(ms[1..], o.pieces, n');
    assert RunP(ms, ps, n) == Split(r.pieces, o.origs + r.origs);
    UnfoldCompose(ps, n, o, r);
  }

  /** Unfolding a later pass's records and then an earlier pass's undoes both passes. */
  lemma UnfoldCompose(ps: seq<Piece>, n: nat, o: Split, r: Split)
    requires Inline(o.pieces, n, o.origs) == ps && AllTokensBelow(o.origs, n)
    requires Unfold(r.pieces, n + |o.origs|, r.origs) == o.pieces
    ensures Unfold(r.pieces, n, o.origs + r.origs) == ps
  {
    UnfoldAppend(r.pieces, n, o.origs, r.origs);
    UnfoldInline(o.pieces, n, o.origs);
  }

  lemma RecordsPrefix(fs: seq<Formula>, os: seq<seq<Piece>>, n: nat, l: nat)
    requires Spells(fs, os) && NumberedFrom(fs, n) && AllUserChars(os) && l <= |fs|
    ensures Spells(fs[..l], os[..l]) && NumberedFrom(fs[..l], n) && AllUserChars(os[..l])
  {
    forall i | 0 <= i < l ensures fs[..l][i] == fs[i] && os[..l][i] == os[i] { }
  }

  /** Restoring the records from last to first spells the pieces with the records unfolded. */
  lemma {:induction false} RestoreFlat(qs: seq<Piece>, fs: seq<Formula>, os: seq<seq<Piece>>, n: nat)
    requires UserChars(qs) && AllUserChars(os) && Spells(fs, os) && NumberedFrom(fs, n)
    ensures RestoreReversed(Flat(qs), fs) == Flat(Unfold(qs, n, os))
    decreases |fs|
  {
    if fs != [] {
      var l := |fs| - 1;
      var text := ReplaceAll(Flat(qs), fs[l].placeholder, fs[l].original);
      var expanded := Expand(qs, n + l, os[l]);
      assert RestoreReversed(Flat(qs), fs) == RestoreReversed(text, fs[..l]);
      assert Unfold(qs, n, os) == Unfold(expanded, n, os[..l]);
      assert fs[l].placeholder == Placeholder(n + l) && fs[l].original == Flat(os[l]);
      ReplaceFlat(qs, n + l, os[l]);
      ExpandChars(qs, n + l, os[l]);
      RecordsPrefix(fs, os, n, l);
      RestoreFlat(expanded, fs[..l], os[..l], n);
    }
  }

  // ---------------------------------------------------------------------------
  // Restoring in creation order

  /** Records `os` spelled out one at a time from the first, as `restore_formulas` does. */
  function UnfoldForward(ps: seq<Piece>, n: nat, os: seq<seq<Piece>>): seq<Piece>
    decreases |os|
  {
    if os == [] then ps else UnfoldForward(Expand(ps, n, os[0]), n + 1, os[1..])
  }

  lemma RecordsSuffix(fs: seq<Formula>, os: seq<seq<Piece>>, n: nat)
    requires Spells(fs, os) && NumberedFrom(fs, n) && AllUserChars(os) && fs != []
    ensures Spells(fs[1..], os[1..]) && NumberedFrom(fs[1..], n + 1) && AllUserChars(os[1..])
  {
    forall i | 0 <= i < |fs| - 1 ensures fs[1..][i] == fs[i + 1] && os[1..][i] == os[i + 1] {
      assert n + 1 + i == n + (i + 1);
    }
  }

  /** Restoring the records in creation order spells the pieces with the records expanded
      first to last. */
  lemma {:induction false} RestoreForwardFlat(qs: seq<Piece>, fs: seq<Formula>, os: seq<seq<Piece>>, n: nat)
    requires UserChars(qs) && AllUserChars(os) && Spells(fs, os) && NumberedFrom(fs, n)
    ensures Restore(Flat(qs), fs) == Flat(UnfoldForward(qs, n, os))
    decreases |fs|
  {
    if fs != [] {
      assert fs[0].placeholder == Placeholder(n) && fs[0].original == Flat(os[0]);
      ReplaceFlat(qs, n, os[0]);
      ExpandChars(qs, n, os[0]);
      RecordsSuffix(fs, os, n);
      RestoreForwardFlat(Expand(qs, n, os[0]), fs[1..], os[1..], n + 1);
    }
  }

  lemma InlineExpandFirstHead(p: Piece, n: nat, a: seq<Piece>, os: seq<seq<Piece>>)
    requires TokensBelow(a, n)
    ensures Inline(if p == Tok(n) then a else [p], n + 1, os) == InlineOne(p, n, [a] + os)
  {
    if p == Tok(n) {
      InlineBelow(a, n + 1, os);
    } else {
      assert [p][1..] == [];
      InlineOneShift(p, n, a, os);
    }
  }

  /** Spelling out placeholder `n` first and then the later ones is spelling all at once,
      when the record of `n` holds no placeholder from `n` on. */
  lemma {:induction false} InlineExpandFirst(ps: seq<Piece>, n: nat, a: seq<Piece>, os: seq<seq<Piece>>)
    requires TokensBelow(a, n)
    ensures Inline(Expand(ps, n, a), n + 1, os) == Inline(ps, n, [a] + os)
  {
    if ps != [] {
      var p := ps[0];
      var head := if p == Tok(n) then a else [p];
      assert Expand(ps, n, a) == head + Expand(ps[1..], n, a);
      InlineAppend(head, Expand(ps[1..], n, a), n + 1, os);
      InlineExpandFirstHead(p, n, a, os);
      InlineExpandFirst(ps[1..], n, a, os);
    }
  }

  /** Records holding no placeholder from `n` on unfold, first to last, exactly as they spell
      out at once. */
  lemma {:induction false} UnfoldForwardInline(ps: seq<Piece>, n: nat, os: seq<seq<Piece>>)
    requires forall i :: 0 <= i < |os| ==> NoTokens(os[i])
    ensures UnfoldForward(ps, n, os) == Inline(ps, n, os)
    decreases |os|
  {
    if os == [] {
      InlineNone(ps, n);
    } else {
      assert forall i :: 0 <= i < |os| - 1 ==> os[1..][i] == os[i + 1];
      UnfoldForwardInline(Expand(ps, n, os[0]), n + 1, os[1..]);
      InlineExpandFirst(ps, n, os[0], os[1..]);
      assert [os[0]] + os[1..] == os;
    }
  }

  /** The pieces hold no placeholder. */
  predicate NoTokens(ps: seq<Piece>) {
    forall i :: 0 <= i < |ps| ==> ps[i].Ch?
  }

  /** Pieces whose text holds no `_` hold no placeholder. */
  lemma {:induction false} NoUnderscoreNoTokens(ps: seq<Piece>)
    requires '_' !in Flat(ps)
    ensures NoTokens(ps)
  {
    if ps != [] {
      FlatHead(ps);
      if ps[0].Tok? {
        PlaceholderShape(ps[0].k);
      }
      assert '_' !in Flat(ps[1..]);
      NoUnderscoreNoTokens(ps[1..]);
    }
  }

  /** Records whose originals hold no `_` hold no placeholder. */
  lemma OrigsNoTokens(fs: seq<Formula>, os: seq<seq<Piece>>)
    requires Spells(fs, os) && OriginalsLack(fs, '_')
    ensures forall i :: 0 <= i < |os| ==> NoTokens(os[i])
    ensures AllTokensBelow(os, 0)
  {
    forall i | 0 <= i < |os| ensures NoTokens(os[i]) {
      NoUnderscoreNoTokens(os[i]);
    }
  }

  /** With placeholder-free records both restore orders give the same text. */
  lemma ForwardAgrees(qs: seq<Piece>, fs: seq<Formula>, os: seq<seq<Piece>>)
    requires UserChars(qs) && AllUserChars(os) && Spells(fs, os) && NumberedFrom(fs, 0)
    requires OriginalsLack(fs, '_')
    ensures Restore(Flat(qs), fs) == RestoreReversed(Flat(qs), fs)
  {
    OrigsNoTokens(fs, os);
    RestoreForwardFlat(qs, fs, os, 0);
    RestoreFlat(qs, fs, os, 0);
    UnfoldForwardInline(qs, 0, os);
    UnfoldInline(qs, 0, os);
  }

  /** The round trip with the records restored in creation order, as `restore_formulas`
      does: it holds on a text without `_` when no record's original holds `_`, that is when
      no formula was recorded with a placeholder inside it. */
  lemma PreserveForwardRoundTrip(s: string)
    requires '_' !in s && OriginalsLack(Preserve(s).formulas, '_')
    ensures var p := Preserve(s); Restore(p.text, p.formulas) == s
  {
    var ms, ps := Compile(Passes), Chars(s);
    forall j | 0 <= j < |ms| ensures Inert(ms[j]) {
      PatternMatcherInert(Passes[j]);
    }
    CharsFacts(s);
    var o := RunP(ms, ps, 0);
    RunFlat(ms, ps, 0);
    RunChars(ms, ps, 0);
    ForwardAgrees(o.pieces, Preserve(s).formulas, o.origs);
    PreserveRoundTrip(s);
  }

  /** On a text with no `_` and no `$$…$$` block, `restore_formulas` undoes
      `preserve_formulas`. */
  lemma NoBlockRoundTrip(s: string)
    requires '_' !in s && NoMatch(PatternMatcher(BlockMath), s)
    ensures var p := Preserve(s); Restore(p.text, p.formulas) == s
  {
    NoBlockOriginalsLack(s);
    PreserveForwardRoundTrip(s);
  }

  /** On a text with no `_` and no `$$…$$` block, restoring a second time with the same
      records changes nothing: the first restore leaves no placeholder behind. */
  lemma RestoreIdempotent(s: string)
    requires '_' !in s && NoMatch(PatternMatcher(BlockMath), s)
    ensures var p := Preserve(s); var once := Restore(p.text, p.formulas);
      Restore(once, p.formulas) == once
  {
    NoBlockRoundTrip(s);
    NoPlaceholderInPlain(s);
  }

  /** With the records restored last first, the same holds for every text without `_`. */
  lemma RestoreReversedIdempotent(s: string)
    requires '_' !in s
    ensures var p := Preserve(s); var once := RestoreReversed(p.text, p.formulas);
      RestoreReversed(once, p.formulas) == once
  {
    PreserveRoundTrip(s);
    NoPlaceholderInPlain(s);
  }

  /** No placeholder of `preserve_formulas(s)` occurs in a text `s` without `_`. */
  lemma NoPlaceholderInPlain(s: string)
    requires '_' !in s
    ensures NoPlaceholderIn(s, Preserve(s).formulas)
  {
    var fs := Preserve(s).formulas;
    PreservePlaceholders(s);
    forall k | 0 <= k < |fs|
      ensures fs[k].placeholder != [] && forall i :: 0 <= i < |s| ==> !OccursAt(s, fs[k].placeholder, i)
    {
      PlaceholderShape(k);
      forall i | 0 <= i < |s| ensures !OccursAt(s, fs[k].placeholder, i) {
        assert s[i] != '_';
      }
    }
  }

  /** Every character of `s` is a piece of its own, with no underscore. */
  lemma CharsFacts(s: string)
    requires '_' !in s
    ensures UserChars(Chars(s)) && TokensBelow(Chars(s), 0) && Flat(Chars(s)) == s
  {
    FlatChars(s);
  }

  /** The round trip, with the records undone from last to first: on a text with no
      underscore, restoring what `preserve_formulas` produced gives the text back. */
  lemma PreserveRoundTrip(s: string)
    requires '_' !in s
    ensures var p := Preserve(s); RestoreReversed(p.text, p.formulas) == s
  {
    var ms, ps := Compile(Passes), Chars(s);
    forall j | 0 <= j < |ms| ensures Inert(ms[j]) {
      PatternMatcherInert(Passes[j]);
    }
    CharsFacts(s);
    var o := RunP(ms, ps, 0);
    RunFlat(ms, ps, 0);
    RunChars(ms, ps, 0);
    RunUnfold(ms, ps, 0);
    RunPassesPlaceholders(ms, s, 0);
    RestoreFlat(o.pieces, Preserve(s).formulas, o.origs, 0);
  }
}
