# Formula guard of the PDF translation script

`translate_pdf.py` turns the text extracted from a PDF, line by line, into the text to be
translated. Before a line goes to the translation step, `preserve_formulas` hides every
mathematical formula in it. It runs seven regular-expression passes in a fixed order:
`$$…$$` blocks, then `$…$` inline formulas, then five hand-written math-variable patterns
(`𝑥·𝑦=𝑘`, `𝐿√`, `√𝑘`, `𝑝𝑎`/`𝑝𝑏`/`𝑝𝑐` and `𝑥real`/`𝑦real`, with optional whitespace between
the symbols). Each match is swapped for a numbered placeholder `__FORMULA_k__` and recorded as
a `(placeholder, formula)` pair. One counter runs across all the passes. After translation,
`restore_formulas` puts the formulas back with `str.replace`. The translation service is still
a stub, so `translate_section` is preserve followed by restore. The line loop of `main` copies
page markers (`--- Page …`) as they are, empties whitespace-only lines, and sends every other
line through the same two steps.

The Dafny model has six modules:

- `Text` holds the Python built-ins the script relies on: `\s` / `str.isspace`,
  `str.replace`, `str.split('\n')`, `'\n'.join`, `str.strip` and the decimal rendering of the
  counter. Each comes with the laws the proofs need.
- `Patterns` holds the seven regexes. Each is an explicit matcher proved against a
  declarative description of the strings the regex matches. Each of these regexes has at most
  one match at a position, so the match at a position is the unique prefix in the language.
- `FormulaGuard` models `re.sub` with the `replace_formula` callback as a specification
  function, `SubstituteAll`, and the pass sequence as `RunPasses`. It also holds both restore
  orders. The imperative code (`SubstitutePass`, `RunAllPasses`, `RunMathPasses`,
  `PreserveFormulas`, `RestoreFormulas`) is proved against these functions.
- `RoundTrip` proves when restoring gives back the input. It follows the rewritten text as a
  sequence of pieces, each one input character or one placeholder. Undoing the records from
  last to first gives back every input without `_`. `restore_formulas` as written, which
  applies them first to last, gives back every input without `_` in which no record's original
  holds `_`; in particular every such input without a `$$…$$` block.
- `Findings` exhibits an input on which `restore_formulas` does not give back the input.
- `Translate` models `translate_section` and the line router of `main` as written, with
  `restore_formulas` in creation order. `TranslateSectionReversed` is the corrected
  `translate_section`.

## Model

| member | source | states |
|---|---|---|
| FormulaGuard.PlaceholderShape | translate_pdf.py:27 | A placeholder is `__FORMULA_`, at least one digit, then `__`: at least 13 characters, all of them placeholder characters |
| FormulaGuard.PlaceholderInjective | translate_pdf.py:27 | Two counters with the same placeholder are equal, so placeholders are distinct |
| FormulaGuard.PlaceholderCharsInert | translate_pdf.py:27 | No placeholder character is whitespace, `$`, a newline, a character a match may begin or end with, or a math-pattern character |
| Text.AsciiSpaces | translate_pdf.py:88-91 | On ASCII, `\s` and `str.strip` treat exactly space, tab, newline, carriage return, vertical tab, form feed and the separators U+001C to U+001F as whitespace; no printable character is |
| Text.DecimalRoundTrip | translate_pdf.py:27 | Reading back the decimal rendering of the counter gives the counter |
| Text.DecimalDigitsInjective | translate_pdf.py:27 | Distinct counters render to distinct digit strings |
| FormulaGuard.SubstituteAll | translate_pdf.py:24-30 | One `re.sub` pass with the callback; a pass that records nothing leaves the text unchanged |
| FormulaGuard.SubstituteAllPlaceholders | translate_pdf.py:24-30 | The k-th record of a pass started at counter n has placeholder `__FORMULA_{n+k}__` |
| FormulaGuard.SubstituteAllNoMatch | translate_pdf.py:24-30 | A pass records nothing if and only if its pattern matches nowhere in the text |
| FormulaGuard.SubstituteAllRecords | translate_pdf.py:24-30 | Every recorded formula is what the pattern matched at some position of the text the pass started from |
| FormulaGuard.RecordsMatch | translate_pdf.py:24-30 | Every recorded formula of a pass is a string of that pass's pattern language |
| FormulaGuard.SubstituteAllChars | translate_pdf.py:24-30 | A pass brings in no character except placeholder characters, and every original is made of input characters |
| FormulaGuard.SubstitutePass | translate_pdf.py:24-30 | The left-to-right scan of `re.sub` with the callback computes exactly `SubstituteAll`, and the counter advances by the number of records |
| FormulaGuard.Compile | translate_pdf.py:33-47 | Pass j runs the matcher of pattern j, for every pass |
| FormulaGuard.RunPasses | translate_pdf.py:33-47 | Passes run in sequence, each on the previous output; a run that records nothing leaves the text unchanged |
| FormulaGuard.RunPassesPlaceholders | translate_pdf.py:24-30 | The counter carries across passes: the k-th record of a run started at n has placeholder `__FORMULA_{n+k}__` |
| FormulaGuard.RunPassesNoMatch | translate_pdf.py:33-47 | A run records nothing if and only if none of its patterns matches the text |
| FormulaGuard.RunPassesChars | translate_pdf.py:33-47 | The protected text and the originals hold only input characters and placeholder characters |
| FormulaGuard.PassGroups | translate_pdf.py:33-47 | The records of a run, grouped one group per pass, concatenate to the run's record list |
| FormulaGuard.PassGroupsMatch | translate_pdf.py:33-47 | Group j holds only strings of the pattern that pass j recognizes |
| FormulaGuard.PreservePassOrder | translate_pdf.py:33-47 | The records come in pass order: block formulas, then inline formulas, then each of the five math patterns in list order, each group in its pattern's language |
| FormulaGuard.PreservePlaceholders | translate_pdf.py:13-30 | The k-th record of `preserve_formulas` has placeholder `__FORMULA_k__`, and all placeholders of one call are distinct |
| FormulaGuard.PreserveNoMatch | translate_pdf.py:10-49 | No records if and only if no pattern matches; then the text is returned unchanged; the empty text gives the empty text and no records |
| FormulaGuard.RunAllPasses | translate_pdf.py:33-47 | The block pass, the inline pass, then the math-pattern loop, with one counter, compute `RunPasses` over the seven matchers |
| FormulaGuard.RunMathPasses | translate_pdf.py:46-47 | The loop over the math patterns continues the run from the text, records and counter the first two passes left |
| FormulaGuard.PreserveFormulas | translate_pdf.py:10-49 | `preserve_formulas(text)` returns exactly the protected text and records of the seven passes |
| FormulaGuard.Preserve | translate_pdf.py:10-49 | `preserve_formulas`: the seven passes from counter 0; the k-th record has placeholder `__FORMULA_k__` |
| FormulaGuard.RecordedLack | translate_pdf.py:24-30 | A record of a pass holds no character its input text lacks |
| FormulaGuard.MathLacksUnderscore | translate_pdf.py:39-47 | A record of a math-pattern pass never holds `_` |
| FormulaGuard.NoBlockOriginalsLack | translate_pdf.py:10-49 | On a text with no `_` and no `$$…$$` block, no record's original holds `_`, so no formula is recorded with a placeholder inside it |
| FormulaGuard.Restore | translate_pdf.py:51-55 | Restore in list order, as written; a text in which no placeholder occurs comes back unchanged |
| FormulaGuard.RestoreChars | translate_pdf.py:51-55 | Restoring in list order brings in no character found in neither the text nor the originals |
| FormulaGuard.RestoreFormulas | translate_pdf.py:51-55 | The loop over the records computes `Restore` |
| FormulaGuard.RestoreReversed | translate_pdf.py:51-55 | Restore from the last record to the first; a text in which no placeholder occurs comes back unchanged |
| FormulaGuard.RestoreReversedChars | translate_pdf.py:51-55 | Restoring brings in no character found in neither the text nor the originals |
| FormulaGuard.RestoreFormulasReversed | translate_pdf.py:51-55 | The loop over the records from last to first computes `RestoreReversed` |
| Patterns.MatchBlock | translate_pdf.py:33 | The length of the `\$\$[^\$]+\$\$` match at the head of a string, never past its end |
| Patterns.MatchInline | translate_pdf.py:34 | The length of the `\$[^\$]+\$` match at the head of a string, never past its end |
| Patterns.MatchSpaced | translate_pdf.py:39-42 | The length of the `C0\s*C1…` match at the head of a string, never past its end |
| Patterns.MatchReal | translate_pdf.py:43 | The length of the `[𝑥𝑦]\s*real` match at the head of a string, never past its end |
| Patterns.MatchLen | translate_pdf.py:33-43 | The matcher of each of the seven patterns, never past the end of the string |
| Patterns.MatchBlockCorrect | translate_pdf.py:33 | The block matcher returns the one prefix length in `\$\$[^\$]+\$\$`, or 0 when no prefix is in it |
| Patterns.MatchInlineCorrect | translate_pdf.py:34 | The inline matcher returns the one prefix length in `\$[^\$]+\$`, or 0 when no prefix is in it |
| Patterns.MatchSpacedSound | translate_pdf.py:39-42 | A positive result of the `C0\s*C1…` matcher is a prefix in the pattern's language |
| Patterns.MatchSpacedComplete | translate_pdf.py:39-42 | Any prefix in a `C0\s*C1…` pattern's language is the one the matcher finds |
| Patterns.MatchRealCorrect | translate_pdf.py:43 | The `[𝑥𝑦]\s*real` matcher returns the one prefix length in the language, or 0 when no prefix is in it |
| Patterns.MatchLenCorrect | translate_pdf.py:33-43 | For each of the seven patterns, a positive result is the one prefix length in the language, and 0 means no prefix is in it |
| Patterns.MatchShape | translate_pdf.py:33-43 | Every match has at least two characters and begins and ends with a boundary character; a math-pattern match holds only whitespace and math characters |
| Patterns.Classes | translate_pdf.py:39-43 | Each math pattern has at least two character classes, none holding whitespace |
| Text.ReplaceAll | translate_pdf.py:54 | `str.replace`, left-to-right non-overlapping replacement; replacing a target by itself changes nothing |
| Text.ReplaceAllAbsent | translate_pdf.py:54 | `str.replace` leaves a text unchanged when the non-empty target does not occur in it |
| Text.ReplaceAllChars | translate_pdf.py:54 | `str.replace` brings in no character found in neither the text nor the replacement |
| Text.ReplaceAllHead | translate_pdf.py:54 | An occurrence of the target at the head is replaced, and the scan resumes after it |
| Text.SplitLines | translate_pdf.py:84 | `str.split('\n')` returns at least one line, no line holds a newline, and one line exactly when the text holds no newline |
| Text.JoinLines | translate_pdf.py:104 | `'\n'.join`: one line joins to itself |
| Text.JoinSplit | translate_pdf.py:104 | Joining the lines of a split with `\n` gives back the text |
| Text.SplitJoin | translate_pdf.py:104 | Splitting a `\n`-join of newline-free lines gives back the lines |
| Text.Strip | translate_pdf.py:88-91 | `str.strip()` is a slice of the line with only whitespace before and after it; it is empty exactly when the line is all whitespace, and otherwise begins and ends with a non-space character |
| RoundTrip.ReplaceFlat | translate_pdf.py:54 | Without `_` among the input characters, a placeholder's text occurs only where that placeholder was put, so `str.replace` puts back exactly that record |
| RoundTrip.PatternMatcherInert | translate_pdf.py:33-47 | No match of any pattern begins or ends with a placeholder character, so no pass cuts into a placeholder |
| RoundTrip.RestoreFlat | translate_pdf.py:51-55 | Restoring the records from last to first unfolds every placeholder into the input characters it hides |
| RoundTrip.PreserveRoundTrip | translate_pdf.py:10-55 | For a text without `_`, restoring from the last record to the first gives back the text `preserve_formulas` was handed |
| RoundTrip.RestoreForwardFlat | translate_pdf.py:51-55 | Restoring in list order spells the pieces with the records expanded first to last |
| RoundTrip.UnfoldForwardInline | translate_pdf.py:51-55 | Records holding no placeholder expand first to last exactly as they spell out all at once |
| RoundTrip.ForwardAgrees | translate_pdf.py:51-55 | When no record's original holds `_`, list-order and last-first restore give the same text |
| RoundTrip.PreserveForwardRoundTrip | translate_pdf.py:10-55 | `restore_formulas` as written gives back a text without `_` when no record's original holds `_` |
| RoundTrip.NoBlockRoundTrip | translate_pdf.py:10-55 | `restore_formulas` as written gives back every text with no `_` and no `$$…$$` block |
| RoundTrip.RestoreIdempotent | translate_pdf.py:51-55 | On a text with no `_` and no `$$…$$` block, restoring a second time with the same records changes nothing |
| RoundTrip.RestoreReversedIdempotent | translate_pdf.py:51-55 | With the records restored last first, a second restore changes nothing on every text without `_` |
| RoundTrip.NoPlaceholderInPlain | translate_pdf.py:27 | No placeholder of `preserve_formulas(s)` occurs in a text without `_` |
| Findings.PreserveNested | translate_pdf.py:10-49 | `preserve_formulas("$a$$b$$c$")` returns `__FORMULA_1__`, with records `("__FORMULA_0__", "$$b$$")` and `("__FORMULA_1__", "$a__FORMULA_0__c$")` |
| Findings.ForwardRestoreNested | translate_pdf.py:51-55 | On `$a$$b$$c$`, restoring in list order gives `$a__FORMULA_0__c$`, not the input; restoring from the last record gives the input back |
| Findings.TranslateNested | translate_pdf.py:57-70 | `translate_section("$a$$b$$c$")` returns `$a__FORMULA_0__c$`; the corrected section returns the line |
| Findings.RestoreTwiceNested | translate_pdf.py:51-55 | On `$a$$b$$c$`, a second restore with the same records turns `$a__FORMULA_0__c$` into `$a$$b$$c$`, so `restore_formulas` is not idempotent there |
| Translate.TranslateSection | translate_pdf.py:57-70 | `translate_section` with `restore_formulas` as written: a text in which no pattern matches, or one with no `_` and no `$$…$$` block, comes back unchanged |
| Translate.TranslateSectionReversed | translate_pdf.py:57-70 | The corrected `translate_section`, restoring last record first: every text without `_` comes back unchanged |
| Translate.TranslateSectionChars | translate_pdf.py:57-70 | The result holds no character found in neither the text nor a placeholder |
| Translate.IsPageMarker | translate_pdf.py:88 | `line.strip().startswith('--- Page')` holds exactly when `--- Page` stands in the line after nothing but whitespace |
| Translate.IsBlank | translate_pdf.py:91 | `line.strip() == ''` holds exactly when the line is whitespace only |
| Translate.RouteLine | translate_pdf.py:87-100 | A page marker comes back as it is; a whitespace-only line becomes `""`; any other line with no `_` and no `$$…$$` block comes back unchanged |
| Translate.RouteLineNoNewline | translate_pdf.py:87-100 | A routed line holds no newline, so the joined output splits back into the routed lines |
| Translate.Route | translate_pdf.py:84-104 | The text `main` writes: it has as many lines as the input, and line i of the output is line i of the input routed |
| Translate.RoutePageMarker | translate_pdf.py:88-90 | A line whose stripped form starts with `--- Page` is written verbatim |
| Translate.RouteBlank | translate_pdf.py:91-93 | A whitespace-only line is written as the empty line |
| Translate.RouteProse | translate_pdf.py:94-100 | Any other line is written as `restore_formulas(*preserve_formulas(line))` |
| Translate.RouteIdentity | translate_pdf.py:84-104 | Content without `_`, with no `$$…$$` block on any line, whose whitespace-only lines are all empty, is written back exactly as it was read |
| Translate.TranslateLine | translate_pdf.py:87-100 | The loop body, calling `preserve_formulas` and `restore_formulas`, computes the routed line |
| Translate.TranslateLines | translate_pdf.py:84-104 | Splitting, the loop that appends each routed line, and the join compute `Route(content)` |

## Left out

- `extract_pdf.py`, the extraction step that produces the input file, is not part of this model.
- File reading and writing, the fixed input and output paths, and the progress messages
  (`translate_pdf.py:73-81`, `102-107`) are left out: they are I/O. `TranslateLines` takes the
  file's content as a parameter and returns the text that would be written.
- The `patterns` list at `translate_pdf.py:17-22` is built but never used by the code, so it
  is not modelled. That includes its `MATH_EXPR` lookahead pattern and its `EQUATION` pattern.
- The translation itself is a stub in the script (`translate_pdf.py:59-66`, `97-98`). It is
  the identity here.
- Python's regex engine is not modelled in general. Each of the seven patterns is an explicit
  matcher, proved against a description of its language. `\s` is Python's `str.isspace` set.
  A matcher is an arbitrary function in `FormulaGuard`. `Hit` treats a length past the end as
  no match, and the pattern matchers never return one.
- RoundTrip.PreserveRoundTrip: stated only for texts with no `_`. That is stronger than "no
  `__FORMULA_` in the input". An input such as `$a$FORMULA_1𝐿√` can form a placeholder's text
  across the end of another placeholder and the input characters after it. On such inputs the
  last-first order is not better than the script's order, and neither order is promised here.
- RoundTrip.PreserveForwardRoundTrip: stated only when no record's original holds `_`. When
  one does, `restore_formulas` can leave a placeholder in the text (see "## Findings").
- RoundTrip.RestoreIdempotent: stated under the same condition as `NoBlockRoundTrip`. When the
  first restore leaves a placeholder behind, a second one changes the text
  (`Findings.RestoreTwiceNested`).
- Translate.TranslateSection: the unchanged-text clause is stated for texts with no `_` and
  no `$$…$$` block, or no match at all. A block that the inline pass then swallows is not put
  back, so the clause cannot hold for every text without `_`. The same limit applies to
  `Translate.RouteLine` and `Translate.RouteIdentity`.
- Unicode subtleties are left out. A string is a sequence of code points, as a Python `str`
  is. There is no normalisation, and `strip` uses the same whitespace set as `\s`.

## Findings

| source | as written | input that shows it | evidently intended | confidence | as-written member | corrected member |
|---|---|---|---|---|---|---|
| translate_pdf.py:51-55 | `restore_formulas` replaces placeholders in creation order. The inline pass can record a formula that already holds an earlier placeholder, and that placeholder is then never put back. | `$a$$b$$c$`: the block pass records `$$b$$` as `__FORMULA_0__`, and the inline pass records `$a__FORMULA_0__c$` as `__FORMULA_1__`. Restoring in order gives `$a__FORMULA_0__c$`. | Restoring gives back the text that was protected | not executed | Findings.ForwardRestoreNested | RoundTrip.PreserveRoundTrip |
