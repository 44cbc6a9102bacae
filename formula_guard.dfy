/** `preserve_formulas` and `restore_formulas`: every match of each pattern, pass after pass,
    is swapped for a numbered placeholder and recorded, and the records are later used to put
    the originals back. */
module FormulaGuard {
  import opened Text
  import opened Patterns

  /** The characters placeholders are made of. */
  predicate IsPlaceholderChar(c: char) {
    c == '_' || c in {'F', 'O', 'R', 'M', 'U', 'L', 'A'} || '0' <= c <= '9'
  }

  /** `f"__FORMULA_{n}__"` */
  function Placeholder(n: nat): string {
    "__FORMULA_" + DecimalDigits(n) + "__"
  }

  /** A placeholder is `__FORMULA_`, at least one digit, then `__`, and is made of
      placeholder characters only. */
  lemma PlaceholderShape(n: nat)
    ensures var t := Placeholder(n);
      |t| >= 13 && t[..10] == "__FORMULA_" && t[|t| - 2..] == "__"
      && forall i :: 0 <= i < |t| ==> IsPlaceholderChar(t[i])
  {
  }

  /** No placeholder character is whitespace, `$`, a newline, or a character a pattern
      match may begin, end or otherwise consist of: no pattern ever matches at or inside a
      placeholder, and a math-pattern match never contains one. */
  lemma PlaceholderCharsInert(c: char)
    requires IsPlaceholderChar(c)
    ensures !IsSpace(c) && !IsBoundaryChar(c) && !IsMathChar(c) && c != '$' && c != '\n'
  {
  }

  /** Distinct counters give distinct placeholders. */
  lemma PlaceholderInjective(j: nat, k: nat)
    requires Placeholder(j) == Placeholder(k)
    ensures j == k
  {
    var pj, pk := Placeholder(j), Placeholder(k);
    assert DecimalDigits(j) == pj[10..|pj| - 2];
    assert DecimalDigits(k) == pk[10..|pk| - 2];
    DecimalDigitsInjective(j, k);
  }

  /** One `(placeholder, formula)` pair of the `formulas` list. */
  datatype Formula = Formula(placeholder: string, original: string)

  /** What `preserve_formulas` returns: the rewritten text and the pairs in creation order. */
  datatype Protected = Protected(text: string, formulas: seq<Formula>)

  // ---------------------------------------------------------------------------
  // One `re.sub` pass

  /** A compiled pattern as `re.sub` uses it: the length of the match at the head of a string,
      0 when there is none. */
  type Matcher = string -> nat

  /** The length of the match `f` reports at the head of `s`; a length past the end of `s`
      counts as no match (the pattern matchers never report one, see `MatchLen`). */
  function Hit(f: Matcher, s: string): (m: nat)
    ensures m <= |s|
  {
    if f(s) <= |s| then f(s) else 0
  }

  /** The compiled form of one of the seven patterns. */
  function PatternMatcher(p: Pattern): Matcher {
    s => MatchLen(p, s)
  }

  /** `f` reports only matches of pattern `p`. */
  ghost predicate Recognizes(f: Matcher, p: Pattern) {
    forall s :: Hit(f, s) > 0 ==> Matches(p, s[..Hit(f, s)])
  }

  lemma PatternMatcherRecognizes(p: Pattern)
    ensures Recognizes(PatternMatcher(p), p)
  {
    var f := PatternMatcher(p);
    forall s | Hit(f, s) > 0 ensures Matches(p, s[..Hit(f, s)]) {
      MatchLenCorrect(p, s);
    }
  }

  /** `f` matches nowhere in `s`. */
  predicate NoMatch(f: Matcher, s: string) {
    forall i :: 0 <= i < |s| ==> Hit(f, s[i..]) == 0
  }

  /** `re.sub(pattern, replace_formula, s)` with the closure's counter at `n`: scanning left to
      right, every leftmost non-overlapping match is replaced by the next placeholder and
      recorded; the scan resumes after the match. */
  function SubstituteAll(f: Matcher, s: string, n: nat): (r: Protected)
    ensures r.formulas == [] ==> r.text == s
    decreases |s|
  {
    if s == [] then Protected([], [])
    else
      var m := Hit(f, s);
      if m > 0 then
        var rest := SubstituteAll(f, s[m..], n + 1);
        Protected(Placeholder(n) + rest.text, [Formula(Placeholder(n), s[..m])] + rest.formulas)
      else
        var rest := SubstituteAll(f, s[1..], n);
        assert rest.formulas == [] ==> [s[0]] + s[1..] == s;
        Protected([s[0]] + rest.text, rest.formulas)
  }

  /** The k-th record of `fs` has placeholder number `n + k`. */
  predicate NumberedFrom(fs: seq<Formula>, n: nat) {
    forall k :: 0 <= k < |fs| ==> fs[k].placeholder == Placeholder(n + k)
  }

  /** Records numbered from `n + 1` stay numbered from `n` behind one record numbered `n`. */
  lemma NumberedCons(g: Formula, fs: seq<Formula>, n: nat)
    requires g.placeholder == Placeholder(n) && NumberedFrom(fs, n + 1)
    ensures NumberedFrom([g] + fs, n)
  {
    var gs := [g] + fs;
    forall k | 1 <= k < |gs| ensures gs[k].placeholder == Placeholder(n + k) {
      assert gs[k] == fs[k - 1];
      assert n + 1 + (k - 1) == n + k;
    }
  }

  /** Two numbered runs, the second starting where the first stops, make one numbered run. */
  lemma NumberedAppend(fs: seq<Formula>, gs: seq<Formula>, n: nat)
    requires NumberedFrom(fs, n) && NumberedFrom(gs, n + |fs|)
    ensures NumberedFrom(fs + gs, n)
  {
    var hs := fs + gs;
    forall k | |fs| <= k < |hs| ensures hs[k].placeholder == Placeholder(n + k) {
      assert hs[k] == gs[k - |fs|];
      assert n + |fs| + (k - |fs|) == n + k;
    }
  }

  /** The k-th record of a pass started with counter `n` has placeholder `n + k`. */
  lemma {:induction false} SubstituteAllPlaceholders(f: Matcher, s: string, n: nat)
    ensures NumberedFrom(SubstituteAll(f, s, n).formulas, n)
    decreases |s|
  {
    if s != [] {
      var m := Hit(f, s);
      if m > 0 {
        SubstituteAllPlaceholders(f, s[m..], n + 1);
        NumberedCons(Formula(Placeholder(n), s[..m]), SubstituteAll(f, s[m..], n + 1).formulas, n);
      } else {
        SubstituteAllPlaceholders(f, s[1..], n);
      }
    }
  }

  /** A pass records nothing exactly when its pattern matches nowhere in the text. */
  lemma {:induction false} SubstituteAllNoMatch(f: Matcher, s: string, n: nat)
    ensures SubstituteAll(f, s, n).formulas == [] <==> NoMatch(f, s)
    decreases |s|
  {
    if s != [] {
      assert s[0..] == s;
      if Hit(f, s) == 0 {
        SubstituteAllNoMatch(f, s[1..], n);
        if NoMatch(f, s[1..]) {
          forall i | 0 <= i < |s| ensures Hit(f, s[i..]) == 0 {
            if i > 0 {
              assert s[i..] == s[1..][i - 1..];
            }
          }
        } else {
          var i :| 0 <= i < |s| - 1 && Hit(f, s[1..][i..]) > 0;
          assert s[1..][i..] == s[i + 1..];
        }
      }
    }
  }

  /** `o` is what `f` matched at position `i` of `s`. */
  predicate MatchedAt(f: Matcher, s: string, i: int, o: string) {
    0 <= i < |s| && Hit(f, s[i..]) > 0 && o == s[i..][..Hit(f, s[i..])]
  }

  /** `o` is what `f` matched at some position of `s`. */
  ghost predicate Matched(f: Matcher, s: string, o: string) {
    exists i :: MatchedAt(f, s, i, o)
  }

  /** Every record of `fs` holds what `f` matched at some position of `s`. */
  ghost predicate RecordedFrom(f: Matcher, s: string, fs: seq<Formula>) {
    forall k :: 0 <= k < |fs| ==> Matched(f, s, fs[k].original)
  }

  /** What matched in a suffix of `s` matched in `s`. */
  lemma RecordedFromSuffix(f: Matcher, s: string, d: nat, fs: seq<Formula>)
    requires d <= |s| && RecordedFrom(f, s[d..], fs)
    ensures RecordedFrom(f, s, fs)
  {
    forall k | 0 <= k < |fs| ensures Matched(f, s, fs[k].original) {
      var j :| MatchedAt(f, s[d..], j, fs[k].original);
      assert s[d..][j..] == s[d + j..];
      assert MatchedAt(f, s, d + j, fs[k].original);
    }
  }

  /** Every record holds what the pattern matched at some position of the text the pass
      started from. */
  lemma {:induction false} SubstituteAllRecords(f: Matcher, s: string, n: nat)
    ensures RecordedFrom(f, s, SubstituteAll(f, s, n).formulas)
    decreases |s|
  {
    if s != [] {
      var m := Hit(f, s);
      if m > 0 {
        var rest := SubstituteAll(f, s[m..], n + 1).formulas;
        SubstituteAllRecords(f, s[m..], n + 1);
        RecordedFromSuffix(f, s, m, rest);
        var fs := [Formula(Placeholder(n), s[..m])] + rest;
        assert s[0..] == s;
        assert MatchedAt(f, s, 0, fs[0].original);
        forall k | 1 <= k < |fs| ensures Matched(f, s, fs[k].original) {
          assert fs[k] == rest[k - 1];
        }
      } else {
        SubstituteAllRecords(f, s[1..], n);
        RecordedFromSuffix(f, s, 1, SubstituteAll(f, s[1..], n).formulas);
      }
    }
  }

  /** Every record of `fs` is a string of pattern `p`'s language. */
  ghost predicate AllMatch(p: Pattern, fs: seq<Formula>) {
    forall k :: 0 <= k < |fs| ==> Matches(p, fs[k].original)
  }

  /** Every record of a pass whose matcher recognizes pattern `p` is a string of `p`'s language. */
  lemma RecordsMatch(f: Matcher, p: Pattern, s: string, n: nat)
    requires Recognizes(f, p)
    ensures AllMatch(p, SubstituteAll(f, s, n).formulas)
  {
    var fs := SubstituteAll(f, s, n).formulas;
    SubstituteAllRecords(f, s, n);
    forall k | 0 <= k < |fs| ensures Matches(p, fs[k].original) {
      var i :| MatchedAt(f, s, i, fs[k].original);
    }
  }

  /** No record's original holds `c`. */
  predicate OriginalsLack(fs: seq<Formula>, c: char) {
    forall k :: 0 <= k < |fs| ==> c !in fs[k].original
  }

  lemma OriginalsLackAppend(fs: seq<Formula>, gs: seq<Formula>, c: char)
    requires OriginalsLack(fs, c) && OriginalsLack(gs, c)
    ensures OriginalsLack(fs + gs, c)
  {
    forall k | |fs| <= k < |fs + gs| ensures c !in (fs + gs)[k].original {
      assert (fs + gs)[k] == gs[k - |fs|];
    }
  }

  /** The rewritten text holds only characters of the input and placeholder characters, and
      every original is a piece of the input. */
  lemma {:induction false} SubstituteAllChars(f: Matcher, s: string, n: nat, c: char)
    requires c !in s && !IsPlaceholderChar(c)
    ensures c !in SubstituteAll(f, s, n).text && OriginalsLack(SubstituteAll(f, s, n).formulas, c)
    decreases |s|
  {
    if s != [] {
      var m := Hit(f, s);
      if m > 0 {
        PlaceholderShape(n);
        assert c !in s[m..] && c !in s[..m];
        SubstituteAllChars(f, s[m..], n + 1, c);
        var rest := SubstituteAll(f, s[m..], n + 1);
        OriginalsLackAppend([Formula(Placeholder(n), s[..m])], rest.formulas, c);
      } else {
        assert c !in s[1..];
        SubstituteAllChars(f, s[1..], n, c);
      }
    }
  }

  // ---------------------------------------------------------------------------
  // All passes

  /** The compiled patterns, in order. */
  function Compile(pats: seq<Pattern>): (ms: seq<Matcher>)
    ensures |ms| == |pats|
    ensures forall j :: 0 <= j < |pats| ==> ms[j] == PatternMatcher(pats[j])
  {
    if pats == [] then [] else [PatternMatcher(pats[0])] + Compile(pats[1..])
  }

  /** The passes `ms` run one after another, each on the previous one's output, with the
      counter carried over from pass to pass. */
  function RunPasses(ms: seq<Matcher>, s: string, n: nat): (r: Protected)
    ensures r.formulas == [] ==> r.text == s
    decreases |ms|
  {
    if ms == [] then Protected(s, [])
    else
      var first := SubstituteAll(ms[0], s, n);
      var rest := RunPasses(ms[1..], first.text, n + |first.formulas|);
      Protected(rest.text, first.formulas + rest.formulas)
  }

  /** Placeholders are numbered on from pass to pass: the k-th record has counter `n + k`. */
  lemma {:induction false} RunPassesPlaceholders(ms: seq<Matcher>, s: string, n: nat)
    ensures NumberedFrom(RunPasses(ms, s, n).formulas, n)
    decreases |ms|
  {
    if ms != [] {
      var first := SubstituteAll(ms[0], s, n);
      var rest := RunPasses(ms[1..], first.text, n + |first.formulas|);
      SubstituteAllPlaceholders(ms[0], s, n);
      RunPassesPlaceholders(ms[1..], first.text, n + |first.formulas|);
      NumberedAppend(first.formulas, rest.formulas, n);
    }
  }

  /** A run of passes records nothing exactly when none of its patterns matches the text. */
  lemma {:induction false} RunPassesNoMatch(ms: seq<Matcher>, s: string, n: nat)
    ensures RunPasses(ms, s, n).formulas == [] <==> forall j :: 0 <= j < |ms| ==> NoMatch(ms[j], s)
    decreases |ms|
  {
    if ms != [] {
      var first := SubstituteAll(ms[0], s, n);
      SubstituteAllNoMatch(ms[0], s, n);
      if first.formulas == [] {
        RunPassesNoMatch(ms[1..], s, n);
        assert forall j :: 1 <= j < |ms| ==> ms[j] == ms[1..][j - 1];
      }
    }
  }

  /** A run of passes holds, in its text and in its originals, only characters of the input
      and placeholder characters. */
  lemma {:induction false} RunPassesChars(ms: seq<Matcher>, s: string, n: nat, c: char)
    requires c !in s && !IsPlaceholderChar(c)
    ensures c !in RunPasses(ms, s, n).text && OriginalsLack(RunPasses(ms, s, n).formulas, c)
    decreases |ms|
  {
    if ms != [] {
      var first := SubstituteAll(ms[0], s, n);
      SubstituteAllChars(ms[0], s, n, c);
      RunPassesChars(ms[1..], first.text, n + |first.formulas|, c);
      OriginalsLackAppend(first.formulas, RunPasses(ms[1..], first.text, n + |first.formulas|).formulas, c);
    }
  }

  /** `preserve_formulas(text)`: block math, then inline math, then the five math patterns in
      list order, with one counter starting at 0, so the k-th record has placeholder
      `__FORMULA_k__`. */
  function Preserve(text: string): (r: Protected)
    ensures NumberedFrom(r.formulas, 0)
  {
    RunPassesPlaceholders(Compile(Passes), text, 0);
    RunPasses(Compile(Passes), text, 0)
  }

  /** The k-th record of a `preserve_formulas` call has placeholder `__FORMULA_k__`, so all
      placeholders of one call are distinct. */
  lemma PreservePlaceholders(text: string)
    ensures var fs := Preserve(text).formulas;
      (forall k :: 0 <= k < |fs| ==> fs[k].placeholder == Placeholder(k))
      && (forall j, k :: 0 <= j < k < |fs| ==> fs[j].placeholder != fs[k].placeholder)
  {
    var fs := Preserve(text).formulas;
    RunPassesPlaceholders(Compile(Passes), text, 0);
    assert NumberedFrom(fs, 0);
    forall j, k | 0 <= j < k < |fs| ensures fs[j].placeholder != fs[k].placeholder {
      if fs[j].placeholder == fs[k].placeholder {
        PlaceholderInjective(j, k);
      }
    }
  }

  /** When no pattern matches (the empty text included) the text comes back unchanged with no
      records, and only then. */
  lemma PreserveNoMatch(text: string)
    ensures Preserve(text).formulas == [] <==> forall p :: p in Passes ==> NoMatch(PatternMatcher(p), text)
    ensures Preserve(text).formulas == [] ==> Preserve(text).text == text
    ensures Preserve([]) == Protected([], [])
  {
    var ms := Compile(Passes);
    RunPassesNoMatch(ms, text, 0);
    RunPassesNoMatch(ms, [], 0);
    assert forall j :: 0 <= j < |ms| ==> NoMatch(ms[j], []);
    assert forall p :: p in Passes <==> exists j :: 0 <= j < |Passes| && Passes[j] == p;
  }

  /** The records of a list of groups, group after group. */
  function Concat(gs: seq<seq<Formula>>): seq<Formula> {
    if gs == [] then [] else gs[0] + Concat(gs[1..])
  }

  /** The records of a run of passes, grouped by the pass that made them. */
  function PassGroups(ms: seq<Matcher>, s: string, n: nat): (gs: seq<seq<Formula>>)
    ensures |gs| == |ms|
    ensures Concat(gs) == RunPasses(ms, s, n).formulas
    decreases |ms|
  {
    if ms == [] then []
    else
      var first := SubstituteAll(ms[0], s, n);
      var gs := [first.formulas] + PassGroups(ms[1..], first.text, n + |first.formulas|);
      assert gs[1..] == PassGroups(ms[1..], first.text, n + |first.formulas|);
      gs
  }

  /** Pass `j` of `ms` recognizes pattern `j` of `pats`. */
  ghost predicate AllRecognize(ms: seq<Matcher>, pats: seq<Pattern>) {
    |ms| == |pats| && forall j :: 0 <= j < |ms| ==> Recognizes(ms[j], pats[j])
  }

  /** Group `j` of `gs` holds strings of pattern `j` of `pats` only. */
  ghost predicate GroupsMatch(pats: seq<Pattern>, gs: seq<seq<Formula>>) {
    |gs| <= |pats| && forall j :: 0 <= j < |gs| ==> AllMatch(pats[j], gs[j])
  }

  lemma AllRecognizeTail(ms: seq<Matcher>, pats: seq<Pattern>)
    requires ms != [] && AllRecognize(ms, pats)
    ensures Recognizes(ms[0], pats[0]) && AllRecognize(ms[1..], pats[1..])
  {
    forall j | 0 <= j < |ms| - 1 ensures Recognizes(ms[1..][j], pats[1..][j]) {
      assert ms[1..][j] == ms[j + 1] && pats[1..][j] == pats[j + 1];
    }
  }

  lemma GroupsMatchCons(pats: seq<Pattern>, g: seq<Formula>, gs: seq<seq<Formula>>)
    requires pats != [] && AllMatch(pats[0], g) && GroupsMatch(pats[1..], gs)
    ensures GroupsMatch(pats, [g] + gs)
  {
    forall j | 1 <= j < |gs| + 1 ensures AllMatch(pats[j], ([g] + gs)[j]) {
      assert ([g] + gs)[j] == gs[j - 1] && pats[j] == pats[1..][j - 1];
    }
  }

  /** Group `j` holds matches of the pattern that pass `j` recognizes. */
  lemma {:induction false} PassGroupsMatch(ms: seq<Matcher>, pats: seq<Pattern>, s: string, n: nat)
    requires AllRecognize(ms, pats)
    ensures GroupsMatch(pats, PassGroups(ms, s, n))
    decreases |ms|
  {
    if ms != [] {
      var first := SubstituteAll(ms[0], s, n);
      var n' := n + |first.formulas|;
      AllRecognizeTail(ms, pats);
      RecordsMatch(ms[0], pats[0], s, n);
      PassGroupsMatch(ms[1..], pats[1..], first.text, n');
      assert PassGroups(ms, s, n) == [first.formulas] + PassGroups(ms[1..], first.text, n');
      GroupsMatchCons(pats, first.formulas, PassGroups(ms[1..], first.text, n'));
    }
  }

  /** The records come in pass order: first the block-math records (each `$$`, at least one
      non-`$` character, `$$`), then the inline-math records (`$`, at least one non-`$`
      character, `$`), then those of each of the five math patterns in list order. */
  lemma PreservePassOrder(text: string)
    ensures var gs := PassGroups(Compile(Passes), text, 0);
      |gs| == 7 && Concat(gs) == Preserve(text).formulas
      && (forall i :: 0 <= i < |gs[0]| ==> IsBlockMath(gs[0][i].original))
      && (forall i :: 0 <= i < |gs[1]| ==> IsInlineMath(gs[1][i].original))
      && (forall j :: 2 <= j < 7 ==> forall i :: 0 <= i < |gs[j]| ==> Matches(Passes[j], gs[j][i].original))
  {
    var ms := Compile(Passes);
    forall j | 0 <= j < |ms| ensures Recognizes(ms[j], Passes[j]) {
      PatternMatcherRecognizes(Passes[j]);
    }
    PassGroupsMatch(ms, Passes, text, 0);
    var gs := PassGroups(ms, text, 0);
    assert AllMatch(Passes[0], gs[0]) && AllMatch(Passes[1], gs[1]);
  }

  /** What a pass recorded from a text without `c` holds no `c`. */
  lemma RecordedLack(f: Matcher, s: string, fs: seq<Formula>, c: char)
    requires RecordedFrom(f, s, fs) && c !in s
    ensures OriginalsLack(fs, c)
  {
    forall k | 0 <= k < |fs| ensures c !in fs[k].original {
      var i :| MatchedAt(f, s, i, fs[k].original);
      assert fs[k].original == s[i..][..Hit(f, s[i..])];
    }
  }

  lemma {:induction false} ConcatLack(gs: seq<seq<Formula>>, c: char)
    requires forall j :: 0 <= j < |gs| ==> OriginalsLack(gs[j], c)
    ensures OriginalsLack(Concat(gs), c)
  {
    if gs != [] {
      ConcatLack(gs[1..], c);
      OriginalsLackAppend(gs[0], Concat(gs[1..]), c);
    }
  }

  /** The first group of a run is the first pass's records; the others are the groups of
      the remaining passes. */
  lemma PassGroupsHead(ms: seq<Matcher>, s: string, n: nat)
    requires ms != []
    ensures var first := SubstituteAll(ms[0], s, n); var gs := PassGroups(ms, s, n);
      gs[0] == first.formulas && gs[1..] == PassGroups(ms[1..], first.text, n + |first.formulas|)
  {
  }

  /** A math-pattern record never holds an underscore. */
  lemma MathLacksUnderscore(p: Pattern, fs: seq<Formula>)
    requires p in MathPatterns && AllMatch(p, fs)
    ensures OriginalsLack(fs, '_')
  {
    PlaceholderCharsInert('_');
    forall k | 0 <= k < |fs| ensures '_' !in fs[k].original {
      MatchShape(p, fs[k].original);
    }
  }

  /** When the text holds no `_` and no `$$…$$` block, no record's original holds `_`: the
      inline pass then sees the text itself, and a math match is made of math characters and
      whitespace. */
  lemma NoBlockOriginalsLack(text: string)
    requires '_' !in text && NoMatch(PatternMatcher(BlockMath), text)
    ensures OriginalsLack(Preserve(text).formulas, '_')
  {
    var ms := Compile(Passes);
    var gs := PassGroups(ms, text, 0);
    var first := SubstituteAll(ms[0], text, 0);
    SubstituteAllNoMatch(ms[0], text, 0);
    PassGroupsHead(ms, text, 0);
    assert ms[1..][0] == ms[1];
    PassGroupsHead(ms[1..], text, 0);
    assert gs[1] == SubstituteAll(ms[1], text, 0).formulas;
    SubstituteAllRecords(ms[1], text, 0);
    RecordedLack(ms[1], text, gs[1], '_');
    PreservePassOrder(text);
    forall j | 2 <= j < |gs| ensures OriginalsLack(gs[j], '_') {
      MathLacksUnderscore(Passes[j], gs[j]);
    }
    ConcatLack(gs, '_');
  }

  // ---------------------------------------------------------------------------
  // Restoring

  /** No record's placeholder is empty or occurs in `text`. */
  predicate NoPlaceholderIn(text: string, formulas: seq<Formula>) {
    forall k :: 0 <= k < |formulas| ==>
      formulas[k].placeholder != [] && forall i :: 0 <= i < |text| ==> !OccursAt(text, formulas[k].placeholder, i)
  }

  /** `restore_formulas` as written: records in list order, each replacing every occurrence
      of its placeholder in the current text. */
  function Restore(text: string, formulas: seq<Formula>): (r: string)
    ensures NoPlaceholderIn(text, formulas) ==> r == text
    decreases |formulas|
  {
    if formulas == [] then text
    else
      var f := formulas[0];
      ReplaceAllAbsent(text, f.placeholder, f.original);
      Restore(ReplaceAll(text, f.placeholder, f.original), formulas[1..])
  }

  /** Restoring brings in no character that neither the text nor any original holds. */
  lemma {:induction false} RestoreChars(text: string, formulas: seq<Formula>, c: char)
    requires c !in text && OriginalsLack(formulas, c)
    ensures c !in Restore(text, formulas)
    decreases |formulas|
  {
    if formulas != [] {
      ReplaceAllChars(text, formulas[0].placeholder, formulas[0].original, c);
      forall k | 0 <= k < |formulas| - 1 ensures c !in formulas[1..][k].original {
        assert formulas[1..][k] == formulas[k + 1];
      }
      RestoreChars(ReplaceAll(text, formulas[0].placeholder, formulas[0].original), formulas[1..], c);
    }
  }

  /** Restoring with the records in reverse creation order, so that a record whose original
      contains an earlier placeholder is undone before that placeholder is. */
  function RestoreReversed(text: string, formulas: seq<Formula>): (r: string)
    ensures NoPlaceholderIn(text, formulas) ==> r == text
    decreases |formulas|
  {
    if formulas == [] then text
    else
      var f := formulas[|formulas| - 1];
      ReplaceAllAbsent(text, f.placeholder, f.original);
      RestoreReversed(ReplaceAll(text, f.placeholder, f.original), formulas[..|formulas| - 1])
  }

  /** Restoring brings in no character that neither the text nor any original holds. */
  lemma {:induction false} RestoreReversedChars(text: string, formulas: seq<Formula>, c: char)
    requires c !in text && OriginalsLack(formulas, c)
    ensures c !in RestoreReversed(text, formulas)
    decreases |formulas|
  {
    if formulas != [] {
      var l := |formulas| - 1;
      ReplaceAllChars(text, formulas[l].placeholder, formulas[l].original, c);
      forall k | 0 <= k < l ensures c !in formulas[..l][k].original {
        assert formulas[..l][k] == formulas[k];
      }
      RestoreReversedChars(ReplaceAll(text, formulas[l].placeholder, formulas[l].original), formulas[..l], c);
    }
  }

  // ---------------------------------------------------------------------------
  // The imperative code

  /** `r` emitted and recorded after `out` and `added`. */
  function After(out: string, added: seq<Formula>, r: Protected): Protected {
    Protected(out + r.text, added + r.formulas)
  }

  /** One match, or one copied character, moves from what is still to scan to what is done. */
  lemma ScanStep(f: Matcher, rem: string, n: nat, out: string, added: seq<Formula>)
    requires rem != []
    ensures var m := Hit(f, rem);
      After(out, added, SubstituteAll(f, rem, n)) ==
        if m > 0 then
          After(out + Placeholder(n), added + [Formula(Placeholder(n), rem[..m])], SubstituteAll(f, rem[m..], n + 1))
        else
          After(out + [rem[0]], added, SubstituteAll(f, rem[1..], n))
  {
    var m := Hit(f, rem);
    if m > 0 {
      var placeholder := Placeholder(n);
      var record := Formula(placeholder, rem[..m]);
      var rest := SubstituteAll(f, rem[m..], n + 1);
      assert (out + placeholder) + rest.text == out + (placeholder + rest.text);
      assert (added + [record]) + rest.formulas == added + ([record] + rest.formulas);
    } else {
      var rest := SubstituteAll(f, rem[1..], n);
      assert (out + [rem[0]]) + rest.text == out + ([rem[0]] + rest.text);
    }
  }

  /** One `re.sub(pattern, replace_formula, text)` call: `re.sub` scans the text left to right
      and at each match calls `replace_formula`, which appends the record and bumps the closure's
      counter, and puts the returned placeholder in the match's place. */
  method SubstitutePass(f: Matcher, text: string, counter: nat)
    returns (out: string, added: seq<Formula>, next: nat)
    ensures Protected(out, added) == SubstituteAll(f, text, counter)
    ensures next == counter + |added|
  {
    out, added, next := [], [], counter;
    var rem := text;
    ghost var goal := SubstituteAll(f, text, counter);
    assert After([], [], goal) == goal;
    while rem != []
      invariant next == counter + |added|
      invariant After(out, added, SubstituteAll(f, rem, next)) == goal
      decreases |rem|
    {
      var m := Hit(f, rem);
      ScanStep(f, rem, next, out, added);
      if m > 0 {
        var placeholder := Placeholder(next);
        added := added + [Formula(placeholder, rem[..m])];
        next := next + 1;
        out := out + placeholder;
        rem := rem[m..];
      } else {
        out := out + [rem[0]];
        rem := rem[1..];
      }
    }
    assert out + [] == out && added + [] == added;
  }

  /** Where a run of passes stands once it has recorded `done` and produced `out`, with the
      passes `ms` still to go starting at counter `n`. */
  function Continue(ms: seq<Matcher>, out: string, done: seq<Formula>, n: nat): Protected {
    var rest := RunPasses(ms, out, n);
    Protected(rest.text, done + rest.formulas)
  }

  /** Running the next pass moves its records from what is to come to what is done. */
  lemma ContinueStep(ms: seq<Matcher>, out: string, done: seq<Formula>, n: nat, out': string, added: seq<Formula>)
    requires ms != [] && Protected(out', added) == SubstituteAll(ms[0], out, n)
    ensures Continue(ms, out, done, n) == Continue(ms[1..], out', done + added, n + |added|)
  {
    var rest := RunPasses(ms[1..], out', n + |added|);
    assert done + (added + rest.formulas) == (done + added) + rest.formulas;
  }

  /** The body of `preserve_formulas` over compiled patterns `ms`: the block-math pass, the
      inline-math pass, then the loop over the remaining (math) patterns, one counter
      throughout. */
  method RunAllPasses(ms: seq<Matcher>, text: string) returns (out: string, formulas: seq<Formula>)
    requires |ms| == 2 + |MathPatterns|
    ensures Protected(out, formulas) == RunPasses(ms, text, 0)
  {
    ghost var goal := RunPasses(ms, text, 0);
    assert Continue(ms, text, [], 0) == goal by {
      assert [] + goal.formulas == goal.formulas;
    }
    var counter := 0;
    var added;
    out, added, counter := SubstitutePass(ms[0], text, counter);
    ContinueStep(ms, text, [], 0, out, added);
    formulas := [] + added;
    ghost var before, start := out, counter;
    out, added, counter := SubstitutePass(ms[1], out, counter);
    assert ms[1..][0] == ms[1] && ms[1..][1..] == ms[2..];
    ContinueStep(ms[1..], before, formulas, start, out, added);
    formulas := formulas + added;
    out, formulas := RunMathPasses(ms[2..], out, formulas, counter);
  }

  /** `for pattern in math_patterns: text = re.sub(pattern, replace_formula, text)`, going on
      from the text `out0`, the records `done` and the counter `|done|`. */
  method RunMathPasses(ms: seq<Matcher>, out0: string, done: seq<Formula>, counter0: nat)
    returns (out: string, formulas: seq<Formula>)
    requires counter0 == |done|
    ensures Protected(out, formulas) == Continue(ms, out0, done, counter0)
  {
    out, formulas := out0, done;
    var counter := counter0;
    var added;
    for j := 0 to |ms|
      invariant counter == |formulas|
      invariant Continue(ms[j..], out, formulas, counter) == Continue(ms, out0, done, counter0)
    {
      ghost var before, start := out, counter;
      out, added, counter := SubstitutePass(ms[j], out, counter);
      assert ms[j..][0] == ms[j] && ms[j..][1..] == ms[j + 1..];
      ContinueStep(ms[j..], before, formulas, start, out, added);
      formulas := formulas + added;
    }
    assert ms[|ms|..] == [] && formulas + [] == formulas;
  }

  /** `preserve_formulas(text)`. */
  method PreserveFormulas(text: string) returns (out: string, formulas: seq<Formula>)
    ensures Protected(out, formulas) == Preserve(text)
  {
    out, formulas := RunAllPasses(Compile(Passes), text);
  }

  /** `restore_formulas(text, formulas)`, as written. */
  method RestoreFormulas(text: string, formulas: seq<Formula>) returns (r: string)
    ensures r == Restore(text, formulas)
  {
    r := text;
    for i := 0 to |formulas|
      invariant Restore(r, formulas[i..]) == Restore(text, formulas)
    {
      assert formulas[i..][1..] == formulas[i + 1..];
      r := ReplaceAll(r, formulas[i].placeholder, formulas[i].original);
    }
  }

  /** `restore_formulas` walking the records from last to first. */
  method RestoreFormulasReversed(text: string, formulas: seq<Formula>) returns (r: string)
    ensures r == RestoreReversed(text, formulas)
  {
    r := text;
    var i := |formulas|;
    assert formulas[..i] == formulas;
    while i > 0
      invariant 0 <= i <= |formulas|
      invariant RestoreReversed(r, formulas[..i]) == RestoreReversed(text, formulas)
    {
      assert formulas[..i][..i - 1] == formulas[..i - 1];
      r := ReplaceAll(r, formulas[i - 1].placeholder, formulas[i - 1].original);
      i := i - 1;
    }
  }
}
