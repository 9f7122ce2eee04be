# Calculator expression rewriting, in Dafny

A browser calculator (`script.js`) builds an expression as text from key
presses. It turns that text into JavaScript source and evaluates it. Before
evaluation, `safeEval` rewrites the text in stages:

- display glyphs become operators (`×` → `*`, `π` → `(3.141592653589793)`, …);
- function names become `Math` calls, with extra parentheses for the
  trigonometric ones;
- `insertDegreeConversion` converts each trigonometric argument from
  degrees to radians. It uses `findMatchingParen` to find the end of the
  argument and rewrites `(ARG)` to `(ARG*Math.PI/180)`.

The `%` key (`applyPercent`) rewrites the trailing number `n` of the
expression as `(n/100)`. After each evaluation, `addHistory` puts the entry
at the front of a list kept to fifty entries. `formatNumber` trims the
trailing zeros of a `toFixed(10)` text.

This project models those pieces over `seq<char>` and proves:

- what each one computes, against an independent description;
- the shapes of their outputs;
- which counts they keep.

Modules, one per file:

- `Strings` (`strings.dfy`): character counts, parenthesis depth, `indexOf`,
  and the literal replace-all `s.replace(/p/g, r)` with its counting and
  splitting laws.
- `Parens` (`parens.dfy`): `findMatchingParen`, as a function and as the
  loop.
- `DegreeConversion` (`degrees.dfy`): `insertDegreeConversion`. One
  iteration of its loop is a `Step`: stop, skip, or wrap an argument. The
  rewriter is a sweep over those steps. Its output is proved equal to the
  input with `*Math.PI/180` spliced in before each rewritten site's closing
  parenthesis. The sites are proved ordered and non-nested, and every
  closed occurrence the scan reaches is proved to be one of them.
- `Normalizer` (`normalizer.dfy`): the string stage of `safeEval`.
- `Keypad` (`keys.dfy`): expressions typed with the keys, and the
  parenthesis balance of what `safeEval` makes of them.
- `Percent` (`percent.dfy`): `applyPercent` and its regular expression.
- `History` (`history.dfy`): `addHistory`, and runs of it.
- `Format` (`format.dfy`): the trim step of `formatNumber`.

The model follows the code as written. Some of what the code does differs
from what its own comments say, or is easy to miss:

- `insertDegreeConversion` produces `(ARG*Math.PI/180)`. The comments at
  script.js:87 and :91 describe `(x)*Math.PI/180`, but no extra parentheses
  are added around the argument.
- The rewriter keeps the parenthesis balance (`RewriteKeepsParens`). Lines
  88 and 92, however, add `(` that are never closed: two for each `sin(` and
  one for each `cos(` and `tan(`. A balanced `sin(90)` reaches evaluation
  with two open parentheses (`SinNinety`, `TrigLeavesOpen`). For any input
  text, no stage ever closes a parenthesis (`NormalizeNeverCloses`).
- Running the glyph passes twice is the same as running them once
  (`GlyphStageIdempotent`). The name passes are different: `sin(` still
  occurs inside `Math.sin(`, so a second run rewrites it again
  (`NameStageNotIdempotent`).
- `addHistory` removes one entry per call (line 36). A list already longer
  than fifty therefore keeps its length (`RecordOverCap`). Starting from
  fifty or fewer entries, the list never grows past fifty
  (`RecordKeepsNewest`, `RecordFromEmpty`).
- `%` rewrites only the trailing number of the whole expression, as the
  comment at script.js:70 says.

## Model

| member | source | states |
|---|---|---|
| Strings.IndexOf | script.js:118 | `src.indexOf(funcName, i)` for a non-empty name: the first index at or after `from` where the name starts, or -1; a found occurrence lies inside the text |
| Strings.ReplaceAll | script.js:76-92 | `s.replace(/p/g, r)` with a literal pattern: scanning left to right, each occurrence is replaced and the scan resumes after it, so matches never overlap |
| Strings.IndexOfSpec | script.js:118 | `indexOf(p, from)` returns the first occurrence at or after `from`, and returns -1 exactly when there is none |
| Strings.ReplaceAllCount | script.js:76-92 | a replace-all pass changes a character's count by the number of non-overlapping matches times the difference between its count in the replacement and in the pattern |
| Strings.ReplaceAllDepth | script.js:85-92 | a replace-all pass changes the parenthesis depth by the number of matches times the depth the replacement adds over the pattern |
| Strings.ReplaceAllAbsent | script.js:76-92 | a pass whose pattern does not occur leaves the text unchanged and matches nothing |
| Strings.ReplaceAllGlyphIsSubstitute | script.js:76-81 | a one-character pattern is replaced character by character, each occurrence by the replacement and every other character kept |
| Strings.ReplaceAllSplit | script.js:85-92 | when no match can straddle the cut, replacing in `x + y` is replacing in `x` followed by replacing in `y` |
| Parens.MatchingParen | script.js:158-174 | `findMatchingParen(str, openIndex)`: start at `openIndex`, or at the next `(` when `str[openIndex]` is not one; then count `(` up and `)` down and return the index where the count returns to zero, or -1 |
| Parens.OpenStartSpec | script.js:160-164 | the search starts at `openIndex` when it holds `(`, otherwise at the first `(` after it; when there is none, the result is -1 |
| Parens.MatchingParenSpec | script.js:158-173 | the result is the `)` at which the depth counted from the start first returns to zero: every shorter prefix is still open. It is -1 exactly when there is no start or the text ends while still open |
| Parens.FindMatchingParen | script.js:158-174 | the counting loop returns the same index as the search described above |
| DegreeConversion.NextStep | script.js:118-153 | one iteration of the loop: no further occurrence stops the scan; an occurrence not followed by `(` is skipped; an argument without a matching `)` stops the scan; otherwise the argument is wrapped |
| DegreeConversion.InsertDegreeConversion | script.js:113-156 | `insertDegreeConversion(src, funcName)`: the loop run from position 0, inserting `*Math.PI/180` |
| DegreeConversion.NextStepWrap | script.js:118-150 | an iteration that rewrites has found an occurrence of the name, followed by `(`, closed by the `)` that `findMatchingParen` returns |
| DegreeConversion.StepsAdvance | script.js:117-153 | each iteration that continues moves the scan position strictly forward within the text, so the loop ends |
| DegreeConversion.RewriteIsSplice | script.js:117-155 | the output is the input with `*Math.PI/180` inserted immediately before the closing parenthesis of each rewritten site, and nothing else changed |
| DegreeConversion.SitesOrdered | script.js:143-153 | rewritten sites come in text order, and each starts after the previous one's closing parenthesis, so occurrences nested in a rewritten argument are not rewritten |
| DegreeConversion.SitesValid | script.js:118-143 | every rewritten site is an occurrence of the name followed by `(` and closed where `findMatchingParen` says |
| DegreeConversion.SitesComplete | script.js:117-153 | conversely, every occurrence at or after the start whose `(` is closed is rewritten, unless it lies inside an earlier rewritten argument, overlaps an earlier occurrence, or comes after an occurrence whose `(` is never closed |
| DegreeConversion.RewriteKeepsCount | script.js:150-152 | the rewriter keeps the count of every character that is not in `*Math.PI/180` |
| DegreeConversion.RewriteKeepsParens | script.js:150-152 | the counts of `(` and `)`, and hence the depth, are unchanged |
| DegreeConversion.RewriteAbsent | script.js:118-119 | without an occurrence of the name, the output equals the input |
| DegreeConversion.RewriteNotFound | script.js:119 | once no occurrence is left, the rest is copied verbatim |
| DegreeConversion.RewriteSkips | script.js:121-128 | an occurrence not followed by `(` is copied, and scanning resumes right after it |
| DegreeConversion.RewriteGivesUp | script.js:143-149 | when no matching `)` is found, the rest is copied verbatim and scanning stops |
| DegreeConversion.RewriteUnclosed | script.js:143-149 | the same outcome, stated as: the argument's `(` is still open at the end of the text |
| DegreeConversion.RewriteWraps | script.js:150-153 | a closed argument `(ARG)` is emitted as `(ARG*Math.PI/180)`, and scanning resumes after its `)` |
| DegreeConversion.SweepLoop | script.js:117-155 | the `while` loop, which appends to `out` step by step, produces what the sweep describes |
| DegreeConversion.InsertDegreeConversionLoop | script.js:113-156 | `insertDegreeConversion` with its loop computes the rewriter's output |
| Normalizer.GlyphStage | script.js:76-81 | the five glyph passes in source order: `×`, `÷`, `−`, `π`, `^` |
| Normalizer.Lower | script.js:85 | `sin(`, `cos(`, `tan(`, `sqrt(` become `SIN(`, `COS(`, `TAN(`, `SQRT(`, one pass each, in that order |
| Normalizer.Raise | script.js:88 | the placeholders become `Math.sin((`, `Math.cos((`, `Math.tan((` and `Math.sqrt(`, one pass each, in that order |
| Normalizer.Mark | script.js:92 | each `Math.sin((` becomes `Math.sin(((` |
| Normalizer.Convert | script.js:94-96 | `insertDegreeConversion` for `Math.sin(`, then `Math.cos(`, then `Math.tan(` |
| Normalizer.Normalize | script.js:74-96 | the empty input gives `""`; any other input goes through the glyph passes, the name passes and the three rewrites, in source order |
| Normalizer.GlyphStageIsTransliterate | script.js:76-81 | the glyph passes map each character independently: `×`, `÷`, `−` to `*`, `/`, `-`; `π` to `(3.141592653589793)`; `^` to `**`; all else kept |
| Normalizer.GlyphStageHasNoGlyphs | script.js:76-81 | after the glyph passes, none of `×`, `÷`, `−`, `π`, `^` remains |
| Normalizer.GlyphStageIdempotent | script.js:76-81 | running the glyph passes twice gives the same text as running them once |
| Normalizer.GlyphStageKeepsDepth | script.js:76-81 | the glyph passes keep the parenthesis depth: `π` becomes a parenthesised number, and no other glyph's text holds a parenthesis |
| Normalizer.LowerKeepsDepth | script.js:85 | renaming the functions keeps the parenthesis depth |
| Normalizer.RaiseNeverCloses | script.js:88 | turning placeholders into `Math` calls never lowers the depth |
| Normalizer.ConvertKeepsDepth | script.js:94-96 | the three degree-conversion rewrites keep the parenthesis depth |
| Normalizer.NormalizeHasNoGlyphs | script.js:74-96 | the text handed to evaluation contains no display glyph |
| Normalizer.NormalizeNeverCloses | script.js:74-96 | for every input text, however it was built, the text handed to evaluation has at least the input's depth: no stage closes a parenthesis |
| Keypad.KeyText | script.js:214-225 | the text each key appends: the digit or character itself, `π`, `sin(`, `cos(`, `tan(`, `sqrt(`, `÷`, `×`, `−` |
| Keypad.NormalizeTyped | script.js:74-96 | for a key-built expression, the text evaluated is each key's normalised text in order, put through the rewrites. The empty expression gives `""` |
| Keypad.NormalizeDepth | script.js:85-96 | the evaluated text's depth is the typed depth plus 2 per `sin(` and 1 per `cos(` or `tan(` (0 per `sqrt(`) |
| Keypad.TrigLeavesOpen | script.js:88-92 | the depth never decreases, and it is unchanged exactly when no trigonometric key was pressed |
| Keypad.SinNinety | script.js:85-96 | the balanced `sin(90)` is evaluated as text with depth 2 |
| Keypad.NameStageNotIdempotent | script.js:85-92 | the name passes turn `sin(` into `Math.sin(((`, and a second run changes that text again |
| Percent.ApplyPercent | script.js:183-191 | `applyPercent`: the matched number `n` is replaced by `(n/100)`; without a match the expression is unchanged |
| Percent.MatchesNumberIsShaped | script.js:186 | the pattern `\d+(\.\d+)?` or `\.\d+` matches exactly the texts of digits and at most one dot that end in a digit |
| Percent.NumberStartSpec | script.js:186-187 | there is no match exactly when the expression does not end in a digit. Otherwise the match starts at the leftmost suffix in the language |
| Percent.ApplyPercentSpec | script.js:186-190 | an expression not ending in a digit is unchanged. Otherwise the longest numeric suffix `n` becomes `(n/100)` and the text before it is kept |
| Percent.ApplyPercentDepth | script.js:189-190 | `%` keeps the parenthesis depth |
| Percent.FindNumberStart | script.js:186 | the backward scan finds where the pattern's match starts |
| Percent.PercentExample | script.js:186-190 | `100+50` becomes `100+(50/100)` |
| History.AddHistory | script.js:34-36 | the new entry comes first, followed by the old entries in order; the last entry is dropped only when the list exceeds fifty; a list of at most fifty stays at most fifty |
| History.RecordKeepsNewest | script.js:33-36 | from at most fifty entries, a run of additions leaves the fifty newest of all entries, newest first |
| History.RecordFromEmpty | script.js:33-36 | from an empty history, n additions leave min(n, 50) entries, the latest first |
| History.RecordOverCap | script.js:36 | a list already at or over fifty keeps its length |
| Format.TrimZeros | script.js:273 | `s.replace(/\.?0+$/, '')`: the text up to where the pattern's match starts |
| Format.TrimStartSpec | script.js:273 | `\.?0+$` matches exactly when the text ends in `0`, at the leftmost position where the suffix matches |
| Format.FixedTrim | script.js:272-273 | on `I.F`, the integer part is kept, the fraction loses its trailing zeros, and the dot goes too when `F` is all zeros |
| Format.TrimFixed | script.js:273 | the backward scan removes what the pattern matches |
| Format.TrimExampleFraction | script.js:273 | `2.5000000000` becomes `2.5` |
| Format.TrimExampleWhole | script.js:273 | `3.0000000000` becomes `3` |

## Left out

- Evaluation of the rewritten text with `new Function`, and the `isFinite`
  check (script.js:101-109). They execute arbitrary JavaScript, which is
  beyond a string model.
- `Number.isInteger` and `toFixed(10)` (script.js:270-272). They are
  floating point. Only the trim on their text is modelled.
- `loadHistory`/`saveHistory` (script.js:24-32) and the `saveHistory` and
  `renderHistory` calls in `addHistory` (script.js:37-38). These are
  storage and display I/O.
- `Date.now()` in `addHistory`: the clock reading is the `time` field of
  the entry passed in.
- DOM rendering, `updateDisplay` and `navigator.vibrate`: display only.
- Button and keyboard wiring, including backspace, clear, `handleEquals`
  and its `setTimeout` reset of `"Error"` (script.js:202-264, 278-285).
  These are event plumbing around the modelled operations. The keys' texts
  are modelled as `Keypad.KeyText`.
- The digit buttons' texts come from the page's markup, which is not part
  of this model. They are taken to be the digits and `.`.
- The first matching loop of `insertDegreeConversion` (script.js:129-141).
  Its result `inner` is never used.
- `applySquare` (script.js:195-199). No key calls it.
- DegreeConversion.InsertDegreeConversionLoop: one iteration's step is
  computed by the functions `IndexOf` and `MatchingParen`, not by calling
  the method `FindMatchingParen`. That method is proved equal to
  `MatchingParen` on its own.
- Keypad.NormalizeDepth: the exact count of extra open parentheses is
  proved only for expressions built by appending key texts. Backspace
  (script.js:226-230, 282), `%` (script.js:216) and recalling a history
  entry (script.js:52) also change the expression. For those texts only
  `Normalizer.NormalizeNeverCloses` is proved: the depth never decreases.
  The count is taken over the trigonometric keys pressed, not over `sin(`
  in the text, so text such as `sin(` rebuilt after a backspace is not
  covered.
- Keypad.TrigLeavesOpen: the same append-only domain as
  `Keypad.NormalizeDepth`. Its lower bound holds for every text
  (`Normalizer.NormalizeNeverCloses`). "Unchanged exactly when no
  trigonometric key was pressed" is proved only for appended key texts.
