/** A concrete input on which `restore_formulas`, applying the records in creation order, does
    not give back what `preserve_formulas` was handed: the inline-math pass swallows the
    placeholder the block-math pass has just left, so the inline record's original holds
    `__FORMULA_0__`, and by the time that record is applied the block record has already been
    used up. Applying the records last first (`RestoreReversed`) undoes the nesting; that
    order is proved by `RoundTrip.PreserveRoundTrip` to round-trip every text without `_`. */
module Findings {
  import opened Text
  import opened Patterns
  import opened FormulaGuard
  import opened RoundTrip
  import Translate

  /** A block formula inside what the inline pattern then takes for one inline formula. */
  const Nested: string := "$a$$b$$c$"

  /** What the block-math pass leaves of `Nested`, and what the inline pass then records. */
  function Outer(): string {
    "$a" + Placeholder(0) + "c$"
  }

  lemma PlaceholderSmall(k: nat)
    requires k < 10
    ensures Placeholder(k) == "__FORMULA_" + [Digit(k)] + "__" && |Placeholder(k)| == 13
  {
  }

  /** From the third character on, the block-math pass finds `$$b$$` at the head. */
  lemma BlockPassFromThird()
    ensures SubstituteAll(PatternMatcher(BlockMath), "$$b$$c$", 0)
      == Protected(Placeholder(0) + "c$", [Formula(Placeholder(0), "$$b$$")])
  {
    var f, s := PatternMatcher(BlockMath), "$$b$$c$";
    assert NextDollar(s, 3) == 3;
    assert Hit(f, s) == 5;
    assert s[5..] == "c$" && s[..5] == "$$b$$" && "c$"[1..] == "$" && "$"[1..] == [];
    assert Hit(f, "c$") == 0 && Hit(f, "$") == 0;
    assert SubstituteAll(f, "$", 1) == Protected("$", []);
    assert SubstituteAll(f, "c$", 1) == Protected("c$", []);
  }

  /** The block-math pass finds `$$b$$` and nothing else. */
  lemma BlockPassNested()
    ensures SubstituteAll(PatternMatcher(BlockMath), Nested, 0)
      == Protected(Outer(), [Formula(Placeholder(0), "$$b$$")])
  {
    var f := PatternMatcher(BlockMath);
    assert Nested[1..] == "a$$b$$c$" && Nested[1..][1..] == "$$b$$c$";
    assert Hit(f, Nested) == 0 && Hit(f, "a$$b$$c$") == 0;
    BlockPassFromThird();
    assert SubstituteAll(f, "a$$b$$c$", 0).text == ['a'] + (Placeholder(0) + "c$");
    PrependTwo('$', 'a', Placeholder(0), "c$");
  }

  lemma PrependTwo(c: char, d: char, t: string, u: string)
    ensures [c] + ([d] + (t + u)) == [c, d] + t + u
  {
  }

  /** `Outer()` is `$`, fifteen characters other than `$`, and `$`. */
  lemma OuterDollars()
    ensures var t := Outer();
      |t| == 17 && t[0] == '$' && t[16] == '$' && forall k :: 1 <= k < 16 ==> t[k] != '$'
  {
    var t := Outer();
    PlaceholderSmall(0);
    PlaceholderShape(0);
    forall k | 1 <= k < 16 ensures t[k] != '$' {
      if 2 <= k < 15 {
        assert t[k] == Placeholder(0)[k - 2];
        PlaceholderCharsInert(t[k]);
      }
    }
  }

  /** The inline-math pass then takes all of `Outer()` for one formula. */
  lemma InlinePassNested()
    ensures SubstituteAll(PatternMatcher(InlineMath), Outer(), 1)
      == Protected(Placeholder(1), [Formula(Placeholder(1), Outer())])
  {
    var f, t := PatternMatcher(InlineMath), Outer();
    OuterDollars();
    assert NextDollar(t, 1) == 16;
    assert Hit(f, t) == 17;
    assert t[17..] == [] && t[..17] == t;
  }

  /** No pattern matches anywhere inside a placeholder. */
  lemma PlaceholderNoMatch(p: Pattern, k: nat)
    ensures NoMatch(PatternMatcher(p), Placeholder(k))
  {
    var f, t := PatternMatcher(p), Placeholder(k);
    PlaceholderShape(k);
    forall i | 0 <= i < |t| ensures Hit(f, t[i..]) == 0 {
      var m := Hit(f, t[i..]);
      if m > 0 {
        MatchLenCorrect(p, t[i..]);
        MatchShape(p, t[i..][..m]);
        PlaceholderCharsInert(t[i]);
        assert false;
      }
    }
  }

  /** When the first two passes give `a` and `b` and the rest find nothing, the run is
      their two record lists, in order, and the text the second pass left. */
  lemma TwoPasses(ms: seq<Matcher>, s: string, a: Protected, b: Protected)
    requires |ms| >= 2 && SubstituteAll(ms[0], s, 0) == a
    requires SubstituteAll(ms[1], a.text, |a.formulas|) == b
    requires RunPasses(ms[2..], b.text, |a.formulas| + |b.formulas|) == Protected(b.text, [])
    ensures RunPasses(ms, s, 0) == Protected(b.text, a.formulas + b.formulas)
  {
    assert ms[1..][0] == ms[1] && ms[1..][1..] == ms[2..];
    assert b.formulas + [] == b.formulas;
  }

  /** The five math patterns find nothing in a placeholder. */
  lemma LaterPassesNested(k: nat)
    ensures RunPasses(Compile(Passes)[2..], Placeholder(k), k + 1) == Protected(Placeholder(k), [])
  {
    var later := Compile(Passes)[2..];
    forall j | 0 <= j < |later| ensures NoMatch(later[j], Placeholder(k)) {
      assert later[j] == PatternMatcher(Passes[j + 2]);
      PlaceholderNoMatch(Passes[j + 2], k);
    }
    RunPassesNoMatch(later, Placeholder(k), k + 1);
  }

  /** `preserve_formulas("$a$$b$$c$")` returns `__FORMULA_1__` with the block record first and
      the inline record, whose original holds `__FORMULA_0__`, second. */
  lemma PreserveNested()
    ensures Preserve(Nested)
      == Protected(Placeholder(1), [Formula(Placeholder(0), "$$b$$"), Formula(Placeholder(1), Outer())])
  {
    var ms := Compile(Passes);
    assert ms[0] == PatternMatcher(BlockMath) && ms[1] == PatternMatcher(InlineMath);
    BlockPassNested();
    InlinePassNested();
    LaterPassesNested(1);
    TwoPasses(ms, Nested, Protected(Outer(), [Formula(Placeholder(0), "$$b$$")]),
      Protected(Placeholder(1), [Formula(Placeholder(1), Outer())]));
  }

  /** Restoring two records in creation order: the first record's replacement, then the
      second's. */
  lemma RestoreTwo(t: string, g: Formula, h: Formula)
    ensures Restore(t, [g, h]) == ReplaceAll(ReplaceAll(t, g.placeholder, g.original), h.placeholder, h.original)
  {
    assert [g, h][1..] == [h] && [h][1..] == [];
  }

  /** `__FORMULA_0__` does not occur in `__FORMULA_1__`. */
  lemma FirstAbsent(x: string)
    ensures ReplaceAll(Placeholder(1), Placeholder(0), x) == Placeholder(1)
  {
    var p0, p1 := Placeholder(0), Placeholder(1);
    PlaceholderSmall(0);
    PlaceholderSmall(1);
    forall i | 0 <= i < |p1| ensures !OccursAt(p1, p0, i) {
      if i == 0 {
        assert p1[10] != p0[10];
      }
    }
    ReplaceAllAbsent(p1, p0, x);
  }

  /** A text that is exactly one placeholder becomes exactly that record's original. */
  lemma WholeReplaced(t: string, x: string)
    requires t != []
    ensures ReplaceAll(t, t, x) == x
  {
    ReplaceAllHead([], t, x);
    assert t + [] == t && x + [] == x;
  }

  /** Applying the block record first leaves `__FORMULA_1__` alone; applying the inline record
      then brings back `Outer()`, placeholder and all. */
  lemma ForwardRestoreText()
    ensures Restore(Placeholder(1), [Formula(Placeholder(0), "$$b$$"), Formula(Placeholder(1), Outer())])
      == Outer()
  {
    RestoreTwo(Placeholder(1), Formula(Placeholder(0), "$$b$$"), Formula(Placeholder(1), Outer()));
    FirstAbsent("$$b$$");
    WholeReplaced(Placeholder(1), Outer());
  }

  /** Restoring in creation order, as `restore_formulas` does, leaves `__FORMULA_0__` in the
      text instead of giving back `Nested`; restoring last record first gives it back. */
  lemma ForwardRestoreNested()
    ensures var p := Preserve(Nested);
      Restore(p.text, p.formulas) == Outer() && Outer() != Nested
      && RestoreReversed(p.text, p.formulas) == Nested
  {
    PreserveNested();
    ForwardRestoreText();
    OuterLonger();
    NestedRoundTrip();
  }

  /** `translate_section("$a$$b$$c$")` returns `$a__FORMULA_0__c$`; with the records restored
      last first it returns the line unchanged. */
  lemma TranslateNested()
    ensures Translate.TranslateSection(Nested) == Outer() != Nested
    ensures Translate.TranslateSectionReversed(Nested) == Nested
  {
    ForwardRestoreNested();
  }

  /** Restoring the same records a second time changes the text again: the placeholder the
      first restore left behind is put back now, so restoring is not idempotent here. */
  lemma RestoreTwiceNested()
    ensures var p := Preserve(Nested);
      var once := Restore(p.text, p.formulas);
      once == Outer() && Restore(once, p.formulas) == Nested != once
  {
    ForwardRestoreNested();
    PreserveNested();
    RestoreOuter();
  }

  /** Both records of `Nested`, applied in creation order to `Outer()`, give `Nested`. */
  lemma RestoreOuter()
    ensures Restore(Outer(), [Formula(Placeholder(0), "$$b$$"), Formula(Placeholder(1), Outer())]) == Nested
  {
    RestoreTwo(Outer(), Formula(Placeholder(0), "$$b$$"), Formula(Placeholder(1), Outer()));
    RestoreOuterBlock();
    NestedAbsent(Outer());
  }

  /** `__FORMULA_1__` does not occur in `Nested`, which is shorter. */
  lemma NestedAbsent(x: string)
    ensures ReplaceAll(Nested, Placeholder(1), x) == Nested
  {
    PlaceholderSmall(1);
    ReplaceAllAbsent(Nested, Placeholder(1), x);
  }

  /** Applying the block record to `Outer()` gives `Nested` back. */
  lemma RestoreOuterBlock()
    ensures ReplaceAll(Outer(), Placeholder(0), "$$b$$") == Nested
  {
    var p0, w, x := Placeholder(0), "$a", Placeholder(0) + "c$";
    PlaceholderSmall(0);
    assert Outer() == w + x;
    forall i | 0 <= i < |w| ensures !(p0 <= (w + x)[i..]) {
      assert (w + x)[i..][0] != p0[0];
    }
    ReplaceAllSkip(w, x, p0, "$$b$$");
    ReplaceAllHead("c$", p0, "$$b$$");
    ReplaceAllAbsent("c$", p0, "$$b$$");
  }

  /** Restoring last record first gives `Nested` back. */
  lemma NestedRoundTrip()
    ensures var p := Preserve(Nested); RestoreReversed(p.text, p.formulas) == Nested
  {
    assert '_' !in Nested;
    PreserveRoundTrip(Nested);
  }

  lemma OuterLonger()
    ensures |Outer()| == 17 > |Nested|
  {
    PlaceholderSmall(0);
  }
}
