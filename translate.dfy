/** `translate_section` and the line loop of `main`: every line of the extracted text is
    either a page marker, copied as it is, a blank line, emptied, or a line of prose, whose
    formulas are protected, (not yet) translated, and put back with `restore_formulas`, records
    in creation order. The translation service is a stub in the program and the identity
    here. */
module Translate {
  import opened Text
  import opened FormulaGuard
  import opened RoundTrip

  /** `translate_section(text)`: protect the formulas, translate (the identity), restore with
      `restore_formulas`. A text in which no pattern matches comes back unchanged, and so does
      a text without `_` and without a `$$…$$` block; a block that the inline pass then swallows
      is not put back (see `Findings`). */
  function TranslateSection(text: string): (r: string)
    ensures (forall p :: p in Patterns.Passes ==> NoMatch(PatternMatcher(p), text)) ==> r == text
    ensures '_' !in text && NoMatch(PatternMatcher(Patterns.BlockMath), text) ==> r == text
  {
    PreserveNoMatch(text);
    var p := Preserve(text);
    var r := Restore(p.text, p.formulas);
    assert '_' !in text && NoMatch(PatternMatcher(Patterns.BlockMath), text) ==> r == text by {
      if '_' !in text && NoMatch(PatternMatcher(Patterns.BlockMath), text) {
        NoBlockRoundTrip(text);
      }
    }
    r
  }

  /** `translate_section` with the records restored last first, the order under which
      restoring undoes protecting: every text without `_` comes back unchanged. */
  function TranslateSectionReversed(text: string): (r: string)
    ensures '_' !in text ==> r == text
  {
    var p := Preserve(text);
    var r := RestoreReversed(p.text, p.formulas);
    assert '_' !in text ==> r == text by {
      if '_' !in text {
        PreserveRoundTrip(text);
      }
    }
    r
  }

  /** The result holds only characters of the text and placeholder characters. */
  lemma TranslateSectionChars(text: string, c: char)
    requires c !in text && !IsPlaceholderChar(c)
    ensures c !in TranslateSection(text)
  {
    RunPassesChars(Compile(Patterns.Passes), text, 0, c);
    var p := Preserve(text);
    RestoreChars(p.text, p.formulas, c);
  }

  /** What a page-marker line starts with, once stripped. */
  const PageMark: string := "--- Page"

  /** `line.strip().startswith('--- Page')`: a page marker left by the extraction step, that
      is `--- Page` after nothing but whitespace. */
  predicate IsPageMarker(line: string): (b: bool)
    ensures b <==> exists i :: MarkerAt(line, i)
  {
    assert (PageMark <= Strip(line)) <==> exists i :: MarkerAt(line, i) by {
      if PageMark <= Strip(line) {
        StripMarker(line);
      }
      if exists i :: MarkerAt(line, i) {
        var i :| MarkerAt(line, i);
        MarkerStrip(line, i);
      }
    }
    PageMark <= Strip(line)
  }

  /** `--- Page` stands at index `i` of `line`, after nothing but whitespace. */
  predicate MarkerAt(line: string, i: int) {
    0 <= i && i + |PageMark| <= |line| && line[i..i + |PageMark|] == PageMark && forall k :: 0 <= k < i ==> IsSpace(line[k])
  }

  lemma StripMarker(line: string)
    requires PageMark <= Strip(line)
    ensures exists i :: MarkerAt(line, i)
  {
    var r := Strip(line);
    var i, j :| 0 <= i <= j <= |line| && r == line[i..j]
      && (forall k :: 0 <= k < i ==> IsSpace(line[k])) && (forall k :: j <= k < |line| ==> IsSpace(line[k]));
    PrefixAt(line, i, j, PageMark);
    assert MarkerAt(line, i);
  }

  /** A prefix of a slice starting at `i` stands at `i`. */
  lemma PrefixAt<T>(s: seq<T>, i: int, j: int, p: seq<T>)
    requires 0 <= i <= j <= |s| && p <= s[i..j]
    ensures i + |p| <= |s| && s[i..i + |p|] == p
  {
    assert s[i..j][..|p|] == s[i..i + |p|];
  }

  lemma MarkerStrip(line: string, i: int)
    requires MarkerAt(line, i)
    ensures PageMark <= Strip(line)
  {
    var r := Strip(line);
    var i0, j0 :| 0 <= i0 <= j0 <= |line| && r == line[i0..j0]
      && (forall k :: 0 <= k < i0 ==> IsSpace(line[k])) && (forall k :: j0 <= k < |line| ==> IsSpace(line[k]));
    MarkerEnds(line, i);
    StripBounds(line, r, i, i0, j0);
    SliceTake(line, i, j0, 8);
  }

  /** The ends of `--- Page` are not whitespace. */
  lemma MarkerEnds(line: string, i: int)
    requires MarkerAt(line, i)
    ensures !IsSpace(line[i]) && !IsSpace(line[i + 7])
  {
    var w := line[i..i + 8];
    assert w[0] == line[i] && w[7] == line[i + 7];
    AsciiSpaces(line[i]);
    AsciiSpaces(line[i + 7]);
  }

  /** A slice with only whitespace around it and non-space ends at `i` and `i + 7` starts at
      `i` and runs past `i + 7`. */
  lemma StripBounds(line: string, r: string, i: int, i0: int, j0: int)
    requires 0 <= i && i + 8 <= |line| && forall k :: 0 <= k < i ==> IsSpace(line[k])
    requires !IsSpace(line[i]) && !IsSpace(line[i + 7])
    requires 0 <= i0 <= j0 <= |line| && r == line[i0..j0]
    requires forall k :: 0 <= k < i0 ==> IsSpace(line[k])
    requires forall k :: j0 <= k < |line| ==> IsSpace(line[k])
    requires r != [] ==> !IsSpace(r[0])
    ensures i0 == i && j0 >= i + 8
  {
  }

  lemma SliceTake<T>(s: seq<T>, i: int, j: int, n: nat)
    requires 0 <= i && i + n <= j <= |s|
    ensures s[i..j][..n] == s[i..i + n]
  {
  }

  /** `line.strip() == ''`: the line is whitespace only. */
  predicate IsBlank(line: string): (b: bool)
    ensures b <==> forall i :: 0 <= i < |line| ==> IsSpace(line[i])
  {
    Strip(line) == []
  }

  /** What the loop appends for one line: a page marker as it is, `""` for a blank line, and
      any other line through `translate_section`. */
  function RouteLine(line: string): (r: string)
    ensures IsPageMarker(line) ==> r == line
    ensures IsBlank(line) ==> r == ""
    ensures !IsBlank(line) && '_' !in line && NoMatch(PatternMatcher(Patterns.BlockMath), line) ==> r == line
  {
    if IsPageMarker(line) then line
    else if IsBlank(line) then ""
    else TranslateSection(line)
  }

  /** No routed line holds a newline its input line did not. */
  lemma RouteLineNoNewline(line: string)
    requires '\n' !in line
    ensures '\n' !in RouteLine(line)
  {
    if !IsPageMarker(line) && !IsBlank(line) {
      TranslateSectionChars(line, '\n');
    }
  }

  /** Each line of `lines` routed, in order. */
  function RouteEach(lines: seq<string>): seq<string> {
    seq(|lines|, i requires 0 <= i < |lines| => RouteLine(lines[i]))
  }

  /** The text `main` writes for `content`: its lines, split at `\n`, each routed, joined
      again with `\n`. The output has as many lines as the input, and its i-th line is the
      i-th input line routed. */
  function Route(content: string): (r: string)
    ensures SplitLines(r) == RouteEach(SplitLines(content))
    ensures |SplitLines(r)| == |SplitLines(content)|
  {
    var lines := SplitLines(content);
    var out := RouteEach(lines);
    assert forall i :: 0 <= i < |out| ==> '\n' !in out[i] by {
      forall i | 0 <= i < |out| ensures '\n' !in out[i] {
        RouteLineNoNewline(lines[i]);
      }
    }
    SplitJoin(out);
    JoinLines(out)
  }

  /** A page-marker line is copied as it is. */
  lemma RoutePageMarker(content: string, i: nat)
    requires i < |SplitLines(content)| && IsPageMarker(SplitLines(content)[i])
    ensures i < |SplitLines(Route(content))| && SplitLines(Route(content))[i] == SplitLines(content)[i]
  {
    assert RouteEach(SplitLines(content))[i] == RouteLine(SplitLines(content)[i]);
  }

  /** A line of whitespace only becomes the empty line. */
  lemma RouteBlank(content: string, i: nat)
    requires i < |SplitLines(content)| && IsBlank(SplitLines(content)[i])
    ensures i < |SplitLines(Route(content))| && SplitLines(Route(content))[i] == ""
  {
    assert RouteEach(SplitLines(content))[i] == RouteLine(SplitLines(content)[i]);
  }

  /** Any other line goes through `translate_section`. */
  lemma RouteProse(content: string, i: nat)
    requires i < |SplitLines(content)|
    requires !IsPageMarker(SplitLines(content)[i]) && !IsBlank(SplitLines(content)[i])
    ensures i < |SplitLines(Route(content))|
      && SplitLines(Route(content))[i] == TranslateSection(SplitLines(content)[i])
  {
    assert RouteEach(SplitLines(content))[i] == RouteLine(SplitLines(content)[i]);
  }

  /** With the translation stubbed out, a content without `_`, without a `$$…$$` block on any
      line and without whitespace-only lines other than empty ones is written back exactly as
      it was read. */
  lemma RouteIdentity(content: string)
    requires '_' !in content
    requires forall line :: line in SplitLines(content) ==> NoMatch(PatternMatcher(Patterns.BlockMath), line)
    requires forall line :: line in SplitLines(content) && IsBlank(line) ==> line == []
    ensures Route(content) == content
  {
    var lines := SplitLines(content);
    forall i | 0 <= i < |lines| ensures RouteEach(lines)[i] == lines[i] {
      NoUnderscoreInLines(content, i);
    }
    assert RouteEach(lines) == lines;
    JoinSplit(content);
  }

  /** A line of the content holds no character the content does not. */
  lemma {:induction false} NoUnderscoreInLines(content: string, i: nat)
    requires '_' !in content && i < |SplitLines(content)|
    ensures '_' !in SplitLines(content)[i]
    decreases |content|
  {
    if content != [] {
      var rest := SplitLines(content[1..]);
      assert '_' !in content[1..];
      if content[0] == '\n' {
        if i > 0 {
          NoUnderscoreInLines(content[1..], i - 1);
        }
      } else if i == 0 {
        NoUnderscoreInLines(content[1..], 0);
      } else {
        NoUnderscoreInLines(content[1..], i);
      }
    }
  }

  lemma TakeOneMore<T>(s: seq<T>, i: nat)
    requires i < |s|
    ensures s[..i + 1] == s[..i] + [s[i]]
  {
  }

  /** The body of the loop of `main`, for one line. */
  method TranslateLine(line: string) returns (r: string)
    ensures r == RouteLine(line)
  {
    if IsPageMarker(line) {
      r := line;
    } else if IsBlank(line) {
      r := "";
    } else {
      var processed, formulas := PreserveFormulas(line);
      r := RestoreFormulas(processed, formulas);
    }
  }

  /** The loop of `main` between reading the file and writing it: the lines are split off,
      routed one by one onto `translated`, and joined. */
  method TranslateLines(content: string) returns (out: string)
    ensures out == Route(content)
  {
    var lines := SplitLines(content);
    var translated: seq<string> := [];
    ghost var all := RouteEach(lines);
    for i := 0 to |lines|
      invariant translated == all[..i]
    {
      var routed := TranslateLine(lines[i]);
      TakeOneMore(all, i);
      translated := translated + [routed];
    }
    assert all[..|lines|] == all;
    out := JoinLines(translated);
  }
}
