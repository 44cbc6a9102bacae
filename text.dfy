/** String helpers that stand for the Python built-ins the formula guard relies on:
    the whitespace class, `str.replace`, `str.split('\n')`, `'\n'.join`, `str.strip`
    and the decimal rendering of a counter inside an f-string. */
module Text {

  /** Python's `str.isspace()`: the characters that `\s` matches in a str pattern
      and that `str.strip()` removes. */
  predicate IsSpace(c: char) {
    ('\t' <= c <= '\r') || ('\U{1C}' <= c <= ' ') || c == '\U{85}' || c == '\U{A0}'
    || c == '\U{1680}' || ('\U{2000}' <= c <= '\U{200A}') || c == '\U{2028}' || c == '\U{2029}'
    || c == '\U{202F}' || c == '\U{205F}' || c == '\U{3000}'
  }

  /** On ASCII, `\s` is ` \t\n\r\v\f` and the four separators U+001C to U+001F, and
      nothing else: no printable character is whitespace. */
  lemma AsciiSpaces(c: char)
    ensures c < '\U{80}' ==>
              (IsSpace(c) <==> c == ' ' || c == '\t' || c == '\n' || c == '\r' || c == '\U{B}' || c == '\U{C}'
                               || ('\U{1C}' <= c <= '\U{1F}'))
    ensures '!' <= c <= '~' ==> !IsSpace(c)
  {
  }

  /** The characters of `s` that are not whitespace, in order. */
  function NonSpace(s: string): (r: string)
    ensures |r| <= |s|
    ensures forall i :: 0 <= i < |r| ==> !IsSpace(r[i])
  {
    if s == [] then []
    else if IsSpace(s[0]) then NonSpace(s[1..])
    else [s[0]] + NonSpace(s[1..])
  }

  lemma {:induction false} NonSpaceAppend(a: string, b: string)
    ensures NonSpace(a + b) == NonSpace(a) + NonSpace(b)
  {
    if a == [] {
      assert a + b == b;
    } else {
      assert (a + b)[1..] == a[1..] + b;
      NonSpaceAppend(a[1..], b);
    }
  }

  lemma {:induction false} NonSpaceOfSpaces(s: string)
    requires forall i :: 0 <= i < |s| ==> IsSpace(s[i])
    ensures NonSpace(s) == []
  {
    if s != [] {
      NonSpaceOfSpaces(s[1..]);
    }
  }

  /** Whether `t` occurs in `s` starting at index `i`. */
  predicate OccursAt(s: string, t: string, i: nat) {
    i <= |s| && t <= s[i..]
  }

  /** Python's `s.replace(target, replacement)`: every leftmost, non-overlapping occurrence
      of `target` is replaced, scanning left to right. An empty target matches before every
      character and at the end, as Python's does. */
  function ReplaceAll(s: string, target: string, replacement: string): (r: string)
    ensures replacement == target ==> r == s
    decreases |s|
  {
    if target == [] then
      if s == [] then replacement else replacement + [s[0]] + ReplaceAll(s[1..], target, replacement)
    else if s == [] then []
    else if target <= s then
      assert s == target + s[|target|..];
      replacement + ReplaceAll(s[|target|..], target, replacement)
    else [s[0]] + ReplaceAll(s[1..], target, replacement)
  }

  /** Where no occurrence of a non-empty `target` starts, the first character is copied. */
  lemma ReplaceAllCopy(s: string, target: string, replacement: string)
    requires target != [] && s != [] && !(target <= s)
    ensures ReplaceAll(s, target, replacement) == [s[0]] + ReplaceAll(s[1..], target, replacement)
  {
  }

  /** A prefix `w` in which no occurrence of `target` starts is copied unchanged. */
  lemma {:induction false} ReplaceAllSkip(w: string, x: string, target: string, replacement: string)
    requires target != []
    requires forall i :: 0 <= i < |w| ==> !(target <= (w + x)[i..])
    ensures ReplaceAll(w + x, target, replacement) == w + ReplaceAll(x, target, replacement)
  {
    if w != [] {
      SkipTail(w, x, target);
      HeadTail(w, x);
      ReplaceAllCopy(w + x, target, replacement);
      ReplaceAllSkip(w[1..], x, target, replacement);
      HeadTail(w, ReplaceAll(x, target, replacement));
    } else {
      assert w + x == x && w + ReplaceAll(x, target, replacement) == ReplaceAll(x, target, replacement);
    }
  }

  /** Dropping the first character of `w` keeps the occurrences out of what is left of it. */
  lemma SkipTail(w: string, x: string, target: string)
    requires w != []
    requires forall i :: 0 <= i < |w| ==> !(target <= (w + x)[i..])
    ensures !(target <= w + x)
    ensures forall i :: 0 <= i < |w| - 1 ==> !(target <= (w[1..] + x)[i..])
  {
    assert (w + x)[0..] == w + x;
    forall i | 0 <= i < |w| - 1 ensures !(target <= (w[1..] + x)[i..]) {
      assert (w[1..] + x)[i..] == (w + x)[i + 1..];
    }
  }

  lemma HeadTail(w: string, x: string)
    requires w != []
    ensures (w + x)[0] == w[0] && (w + x)[1..] == w[1..] + x && [w[0]] + (w[1..] + x) == w + x
  {
  }

  /** Replacing never introduces a character found in neither the text nor the replacement. */
  lemma {:induction false} ReplaceAllChars(s: string, target: string, replacement: string, c: char)
    requires c !in s && c !in replacement
    ensures c !in ReplaceAll(s, target, replacement)
    decreases |s|
  {
    if s != [] {
      if target == [] || !(target <= s) {
        assert c !in s[1..];
        ReplaceAllChars(s[1..], target, replacement, c);
      } else {
        assert c !in s[|target|..];
        ReplaceAllChars(s[|target|..], target, replacement, c);
      }
    }
  }

  /** Text in which a non-empty `target` does not occur is left unchanged. */
  lemma ReplaceAllAbsent(s: string, target: string, replacement: string)
    ensures target != [] && (forall i :: 0 <= i < |s| ==> !OccursAt(s, target, i))
            ==> ReplaceAll(s, target, replacement) == s
  {
    if target != [] && forall i :: 0 <= i < |s| ==> !OccursAt(s, target, i) {
      assert s + [] == s;
      forall i | 0 <= i < |s| ensures !(target <= (s + [])[i..]) {
        assert !OccursAt(s, target, i);
      }
      ReplaceAllSkip(s, [], target, replacement);
    }
  }

  /** An occurrence of `target` at the very start is replaced and the scan resumes after it. */
  lemma ReplaceAllHead(x: string, target: string, replacement: string)
    requires target != []
    ensures ReplaceAll(target + x, target, replacement) == replacement + ReplaceAll(x, target, replacement)
  {
    assert (target + x)[|target|..] == x;
  }

  // ---------------------------------------------------------------------------
  // Lines: str.split('\n') and '\n'.join(...)

  /** Python's `s.split('\n')`: never empty, and no piece holds a newline. */
  function SplitLines(s: string): (lines: seq<string>)
    ensures |lines| >= 1
    ensures forall i :: 0 <= i < |lines| ==> '\n' !in lines[i]
    ensures |lines| == 1 <==> '\n' !in s
    decreases |s|
  {
    if s == [] then [""]
    else
      var rest := SplitLines(s[1..]);
      if s[0] == '\n' then [""] + rest
      else [[s[0]] + rest[0]] + rest[1..]
  }

  /** Python's `'\n'.join(lines)` for a non-empty list. */
  function JoinLines(lines: seq<string>): (s: string)
    requires |lines| >= 1
    ensures |lines| == 1 ==> s == lines[0]
  {
    if |lines| == 1 then lines[0]
    else lines[0] + "\n" + JoinLines(lines[1..])
  }

  /** Joining what was split gives back the text. */
  lemma {:induction false} JoinSplit(s: string)
    ensures JoinLines(SplitLines(s)) == s
    decreases |s|
  {
    if s != [] {
      var rest := SplitLines(s[1..]);
      JoinSplit(s[1..]);
      if s[0] == '\n' {
        JoinCons("", rest);
        assert s == "" + "\n" + s[1..];
      } else {
        JoinHead(s[0], rest);
        assert s == [s[0]] + s[1..];
      }
    }
  }

  lemma JoinCons(a: string, lines: seq<string>)
    requires |lines| >= 1
    ensures JoinLines([a] + lines) == a + "\n" + JoinLines(lines)
  {
    assert ([a] + lines)[1..] == lines;
  }

  /** Putting a character in front of the first line puts it in front of the joined text. */
  lemma JoinHead(c: char, lines: seq<string>)
    requires |lines| >= 1
    ensures JoinLines([[c] + lines[0]] + lines[1..]) == [c] + JoinLines(lines)
  {
    if |lines| > 1 {
      var x, j := lines[0], JoinLines(lines[1..]);
      JoinCons([c] + x, lines[1..]);
      HeadRest(lines);
      JoinCons(x, lines[1..]);
      ConsAssoc(c, x, "\n", j);
    }
  }

  lemma HeadRest<T>(s: seq<T>)
    requires |s| >= 1
    ensures [s[0]] + s[1..] == s
  {
  }

  lemma ConsAssoc<T>(c: T, x: seq<T>, y: seq<T>, z: seq<T>)
    ensures [c] + x + y + z == [c] + (x + y + z)
  {
  }

  lemma {:induction false} SplitSingle(a: string)
    requires '\n' !in a
    ensures SplitLines(a) == [a]
  {
    if a != [] {
      assert a[1..] == a[1..];
      assert '\n' !in a[1..] by {
        forall i | 0 <= i < |a[1..]| ensures a[1..][i] != '\n' { assert a[1..][i] == a[i + 1]; }
      }
      SplitSingle(a[1..]);
      assert [a[0]] + a[1..] == a;
    }
  }

  lemma {:induction false} SplitCons(a: string, b: string)
    requires '\n' !in a
    ensures SplitLines(a + "\n" + b) == [a] + SplitLines(b)
    decreases |a|
  {
    var s := a + "\n" + b;
    if a == [] {
      assert s[1..] == b;
    } else {
      AppendTail(a, "\n", b);
      NotInTail('\n', a);
      SplitCons(a[1..], b);
      ConsParts(a[1..], SplitLines(b));
      HeadRest(a);
    }
  }

  lemma AppendTail<T>(a: seq<T>, m: seq<T>, b: seq<T>)
    requires a != []
    ensures (a + m + b)[0] == a[0] && (a + m + b)[1..] == a[1..] + m + b
  {
  }

  lemma NotInTail<T>(x: T, a: seq<T>)
    requires a != [] && x !in a
    ensures x !in a[1..]
  {
  }

  lemma ConsParts<T>(x: T, r: seq<T>)
    ensures ([x] + r)[0] == x && ([x] + r)[1..] == r
  {
  }

  /** Splitting what was joined gives back the lines, provided no line holds a newline. */
  lemma {:induction false} SplitJoin(lines: seq<string>)
    requires |lines| >= 1
    requires forall i :: 0 <= i < |lines| ==> '\n' !in lines[i]
    ensures SplitLines(JoinLines(lines)) == lines
  {
    if |lines| == 1 {
      SplitSingle(lines[0]);
    } else {
      SplitJoin(lines[1..]);
      SplitCons(lines[0], JoinLines(lines[1..]));
    }
  }

  // ---------------------------------------------------------------------------
  // str.strip()

  function TrimStart(s: string): (r: string)
    ensures |r| <= |s| && r == s[|s| - |r|..]
    ensures forall i :: 0 <= i < |s| - |r| ==> IsSpace(s[i])
    ensures r != [] ==> !IsSpace(r[0])
  {
    if s != [] && IsSpace(s[0]) then TrimStart(s[1..]) else s
  }

  function TrimEnd(s: string): (r: string)
    ensures |r| <= |s| && r == s[..|r|]
    ensures forall i :: |r| <= i < |s| ==> IsSpace(s[i])
    ensures r != [] ==> !IsSpace(r[|r| - 1])
  {
    if s != [] && IsSpace(s[|s| - 1]) then TrimEnd(s[..|s| - 1]) else s
  }

  /** Python's `s.strip()`: `s` with its leading and trailing whitespace removed. */
  function Strip(s: string): (r: string)
    ensures exists i, j ::
              0 <= i <= j <= |s| && r == s[i..j]
              && (forall k :: 0 <= k < i ==> IsSpace(s[k])) && (forall k :: j <= k < |s| ==> IsSpace(s[k]))
    ensures r == [] <==> forall i :: 0 <= i < |s| ==> IsSpace(s[i])
    ensures r != [] ==> !IsSpace(r[0]) && !IsSpace(r[|r| - 1])
  {
    var t := TrimStart(s);
    var r := TrimEnd(t);
    var i := |s| - |t|;
    assert r != [] ==> !IsSpace(s[i]) by {
      if r != [] { assert t[0] == r[0]; }
    }
    StripSlice(s, t, r, i);
    r
  }

  /** `TrimEnd(TrimStart(s))` is a slice of `s` with only whitespace around it. */
  lemma StripSlice(s: string, t: string, r: string, i: nat)
    requires i <= |s| && t == s[i..] && forall k :: 0 <= k < i ==> IsSpace(s[k])
    requires |r| <= |t| && r == t[..|r|] && forall k :: |r| <= k < |t| ==> IsSpace(t[k])
    ensures i + |r| <= |s| && r == s[i..i + |r|]
    ensures forall k :: i + |r| <= k < |s| ==> IsSpace(s[k])
  {
    SuffixPrefix(s, i, |r|);
    forall k | i + |r| <= k < |s| ensures IsSpace(s[k]) {
      assert s[k] == t[k - i];
    }
  }

  lemma SuffixPrefix<T>(s: seq<T>, i: nat, n: nat)
    requires i + n <= |s|
    ensures s[i..][..n] == s[i..i + n]
  {
  }

  // ---------------------------------------------------------------------------
  // Decimal rendering of a counter, as in f"{n}"

  function Digit(d: nat): (c: char)
    requires d < 10
    ensures '0' <= c <= '9'
  {
    "0123456789"[d]
  }

  /** The decimal digits of `n` with no leading zero, as `str(n)` renders it. */
  function DecimalDigits(n: nat): (r: string)
    ensures |r| >= 1
    ensures forall i :: 0 <= i < |r| ==> '0' <= r[i] <= '9'
    ensures |r| > 1 ==> r[0] != '0'
  {
    if n < 10 then [Digit(n)] else DecimalDigits(n / 10) + [Digit(n % 10)]
  }

  /** The value of a string of decimal digits, as `int(s)` reads it. */
  function DecimalValue(s: string): nat
    requires forall i :: 0 <= i < |s| ==> '0' <= s[i] <= '9'
  {
    if s == [] then 0 else DecimalValue(s[..|s| - 1]) * 10 + (s[|s| - 1] as int - '0' as int)
  }

  lemma {:induction false} DecimalRoundTrip(n: nat)
    ensures DecimalValue(DecimalDigits(n)) == n
  {
    var r := DecimalDigits(n);
    if n < 10 {
      assert r[..0] == [];
    } else {
      DecimalRoundTrip(n / 10);
      assert r[..|r| - 1] == DecimalDigits(n / 10);
    }
  }

  /** Distinct counters render differently. */
  lemma DecimalDigitsInjective(j: nat, k: nat)
    requires DecimalDigits(j) == DecimalDigits(k)
    ensures j == k
  {
    DecimalRoundTrip(j);
    DecimalRoundTrip(k);
  }
}
