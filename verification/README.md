# Timeout injection for async Dart tests

Two maintenance scripts rewrite Dart test files. Their stated aim is to give
each async test `test('...', () async { ... });` a timeout by replacing its
closing `});` with `}, timeout: Timeout(Duration(seconds: N)));`. N is 10 for
the network test files (`discovery_test.dart`, `zonegroupstate_test.dart`)
and 5 for every other file. The code reaches that aim only in part, and
"## Behaviour as written" lists where it does otherwise. For example, the
whole-text expression never matches the usual `});` closing. A lone
one-line test on the last line is rewritten by none of the three line-based
rewriters. There are four rewriters:

- `add_timeout_to_file`: a forward scan that follows brace depth from each
  line that opens an async test to the line where its block closes. It
  rewrites that line when it holds `});` and neither `timeout:` nor
  `Timeout(`.
- `process_file_simple`: a backward scan. It rewrites every line that holds
  `});`, holds neither `timeout:` nor `Timeout(`, and has a declaration among
  the 50 lines above it.
- `add_timeout_to_test`: one `re.sub` over the whole text.
- `process_file`: a forward brace-depth scan that rewrites lines in place.
  From each declaration it rewrites the line where the block closes, when
  that line holds `});` and neither guard word.

The two `main` drivers choose the timeout by file name, skip the files
already processed, and count the files they rewrote.

The model is a pure function from a file's text to what the file holds
afterwards, plus the rewriter's return value (`Injection.Rewrite`). Each loop
of the scripts is a Dafny method, and the method is proved equal to that
pure definition. The properties are lemmas about the pure definitions.

## Modules

- **Text**: the Python primitives the scripts use. These are `split('\n')`
  and `'\n'.join`, `str.count`, substring `in`, `str.replace`, and integer
  formatting in an f-string. Each has a partner lemma, for example
  `JoinSplit`, `SplitJoin`, `CountIsMultiplicity` and `DecimalRoundTrip`.
- **Patterns**: regular expressions as data. An expression is a sequence of
  parts: a literal, `\s*`, `[^c]+` or `[^c]*`. It has two readings:
  - `MatchParts`, a matcher that never backtracks;
  - `Spans`, a declarative reading.

  `MatchExact` proves the two agree for every expression whose repetitions
  are each stopped by the literal that follows them. All four expressions
  the scripts use are of that kind. On top of the matcher, the module
  defines `re.search` (`Search`) and `re.sub` with a replacement function
  (`Sub`). `\s` is Python's `str.isspace()` set.
- **Injection**: the constants (timeouts, `});`, the guard words, the
  marker `timeout: Timeout(Duration(seconds:`), the replacement suffix,
  `Inject` (the `str.replace` of every `});`) and the per-line brace
  balance.
- **Declarations**: the proof that `Inject` never changes whether a line
  declares an async test (`DeclaresInject`). A declaration match has no
  place to overlap `});` or the suffix, so the replacement keeps every
  match and adds none.
- **AllTimeouts**: `tool/add_all_timeouts.py`.
- **TestTimeouts**: `tool/add_timeouts_to_tests.py`.

The scans are stated for any line test and any line rewrite. Their
parameters are `opens`, `declares`, `isDecl` and `fix`. The top-level
definitions pass in the scripts' own searches (`Patterns.OpensTest`,
`Patterns.DeclaresTest`) and `Injection.InjectFor(timeout)`. So the scan
lemmas hold whatever the regex matches, and the regex facts are proved once,
in Patterns.

## Behaviour as written

The tools' own comments describe their intent: rewrite each block's closing
in place and keep everything else. Where the code does otherwise, the model
follows the code:

- `add_timeout_to_file` writes the rewritten closing line into
  `modified_lines[-1]`. That slot holds the declaration line. The scan then
  resumes after the block, so a multi-line test loses its declaration and
  its body (`AllTimeouts.BlockRewrite`). The rewrite needs the block to end
  before the last line (`j < len(lines)`).
- `process_file_simple` looks at `[max(0, i-50), i)`, so a declaration on
  the closing line itself does not count. The backward loop makes each
  decision depend on original lines only, so the result is a per-line map
  (`AllTimeouts.SimpleLinesExact`).
- `process_file` starts at depth 1 on line `i+1` and ignores the braces on
  the declaration line. Its `for` loop reads lines that earlier iterations
  may already have rewritten. The model carries the current lines forward
  in the same way (`TestTimeouts.Forward`).
- In `add_timeout_to_test`, the expression `test\s*\([^)]+\)\s*async\s*\{[^}]*\}\s*;`
  must have `;` right after the first `}` and whitespace. So it never
  matches a test whose first `}` is the usual `})`
  (`Patterns.BlockMissesUsualClosing`).
- `add_all_timeouts.py` lists `discovery_test.dart` as already processed,
  so that file is skipped even though it is a network file.
- `Inject` replaces every `});` on a line, not only the one that closes the
  test.
- A one-line test on the last line, with no other declaration in the 50
  lines above it, is rewritten by none of the line-based rewriters.
  `add_timeout_to_file` needs the block to end before the last line.
  `process_file_simple` only counts declarations strictly above the closing
  line. `process_file` looks for the closing from the line below the
  declaration.
- For a one-line test inside a `group(...)`, `process_file` starts its
  look-ahead at depth 1 on the next line. The depth reaches zero on the
  group's own `});`, so the group's closing line gets the timeout.
- A line can close one test and declare the next, as in
  `}); test('b', () async {`. `process_file` then tests that line for a
  declaration after it may have rewritten it. Injection never changes the
  answer (`Declarations.DeclaresInject`), so the lines `process_file`
  rewrites can be stated in terms of the original lines
  (`TestTimeouts.ProcessFileLines`).

## Model

| member | source | states |
|---|---|---|
| Text.Join | tool/add_all_timeouts.py:123 | `'\n'.join(lines)`: the lines with one newline between neighbours; `JoinSplit` and `SplitJoin` make it the inverse of `split('\n')` |
| Text.CountChar | tool/add_all_timeouts.py:46 | `line.count(c)` for one character; `CountIsMultiplicity` gives its meaning |
| Text.Contains | tool/add_all_timeouts.py:110 | substring `in`; `ContainsExists` gives its meaning |
| Text.ReplaceAll | tool/add_all_timeouts.py:115-118 | `str.replace`: each occurrence, left to right and not overlapping, becomes the replacement; characterised by `ReplaceNoOccurrence`, `ReplaceKeepsCount` and `ReplaceInsertsRep` |
| Text.DecimalString | tool/add_all_timeouts.py:117 | the f-string rendering of an integer; `DecimalRoundTrip` is its inverse |
| Text.Split | tool/add_all_timeouts.py:104 | `content.split('\n')` yields at least one piece and no piece holds a newline |
| Text.SplitCount | tool/add_all_timeouts.py:104 | the number of lines is the number of newlines plus one |
| Text.JoinSplit | tool/add_all_timeouts.py:123 | joining the split lines with `'\n'` gives back the original text, so an unmodified line list reproduces the file |
| Text.SplitJoin | tool/add_timeouts_to_tests.py:89 | splitting the join of newline-free lines gives back those lines, so a rewrite's lines are what a later run reads |
| Text.DecimalRoundTrip | tool/add_all_timeouts.py:117 | the timeout formatted into the suffix parses back to the same integer |
| Text.DigitsRoundTrip | tool/add_all_timeouts.py:117 | the decimal digits of a natural number read back to that number |
| Text.CountIsMultiplicity | tool/add_all_timeouts.py:46 | `line.count(c)` is the multiplicity of `c` in the line |
| Text.CountConcat | tool/add_timeouts_to_tests.py:79 | counts of a character add up over concatenation |
| Text.ContainsExists | tool/add_all_timeouts.py:110 | substring `in` holds exactly when the word occurs at some index |
| Text.JoinContains | tool/add_all_timeouts.py:123 | a word in one line is in the joined text, so a marker written on a line is seen by the next file-wide guard |
| Text.ReplaceNoOccurrence | tool/add_all_timeouts.py:115-118 | `replace` changes nothing when the pattern does not occur |
| Text.ReplaceKeepsCount | tool/add_all_timeouts.py:115-118 | `replace` keeps the count of any character that pattern and replacement hold equally often |
| Text.ReplaceInsertsRep | tool/add_all_timeouts.py:115-118 | when the pattern occurs, the result holds the replacement |
| Patterns.IsSpace | tool/add_timeouts_to_tests.py:32 | the characters `\s` matches, Python's `str.isspace()` set |
| Patterns.DeclaresTest | tool/add_timeouts_to_tests.py:73 | `re.search(r"test\s*\([^)]+\)\s*async", line)`; characterised by `SearchSpans` and `Declarations.DeclaresInject` |
| Patterns.OpensTest | tool/add_all_timeouts.py:44 | `re.search(r"test\s*\([^)]+\)\s*async\s*\{", line)`; `OpenImpliesDecl` relates it to the declaration search |
| Patterns.Search | tool/add_timeouts_to_tests.py:73 | `re.search`: a match at some start position; characterised by `SearchExists` and `SearchSpans` |
| Patterns.Sub | tool/add_timeouts_to_tests.py:41 | `re.sub` with a replacement function: leftmost non-overlapping matches, each replaced by the function of its text; characterised by `SubLeftmost`, `SubNoMatch` and `SubUnchanged` |
| Patterns.SkipSpace | tool/add_timeouts_to_tests.py:32 | `\s*` stops at the end of the longest run of whitespace |
| Patterns.FindChar | tool/add_timeouts_to_tests.py:32 | `[^}]*` stops at the first `}` or at the end of the text |
| Patterns.MatchParts | tool/add_timeouts_to_tests.py:32 | a match ends inside the text, and an expression that starts with a literal consumes at least one character |
| Patterns.PartSound | tool/add_all_timeouts.py:113 | what one part's matcher consumes is a stretch that part matches |
| Patterns.PartComplete | tool/add_all_timeouts.py:113 | a part that matches a stretch which the next character ends is found by the matcher |
| Patterns.MatchSound | tool/add_all_timeouts.py:113 | every match the matcher finds is a match of the regular expression |
| Patterns.MatchComplete | tool/add_all_timeouts.py:113 | when each repetition is stopped by the next literal, every match of the expression is the matcher's |
| Patterns.MatchExact | tool/add_timeouts_to_tests.py:32 | for such expressions the matcher and the expression agree in both directions, so the regex engine has no choice to make |
| Patterns.MatchConcat | tool/add_all_timeouts.py:44 | matching `a` then `b` is matching `a + b`, so OPEN is DECL followed by `\s*\{` |
| Patterns.ExpressionsGreedy | tool/add_timeouts_to_tests.py:32 | all four expressions start with a literal and stop each repetition at the following literal |
| Patterns.Leftmost | tool/add_timeouts_to_tests.py:41 | the first match position at or after `p`, with no match before it |
| Patterns.SearchExists | tool/add_all_timeouts.py:113 | `re.search` succeeds exactly when the expression matches at some position, and then there is a leftmost one |
| Patterns.SearchSpans | tool/add_timeouts_to_tests.py:73 | `re.search` succeeds exactly when some stretch of the text matches the expression |
| Patterns.SpanFound | tool/add_timeouts_to_tests.py:59-60 | any stretch that matches makes the search succeed |
| Patterns.SpansBounds | tool/add_timeouts_to_tests.py:32 | a matched stretch lies inside the text |
| Patterns.SubCopies | tool/add_timeouts_to_tests.py:41 | `re.sub` copies verbatim the text up to the next match |
| Patterns.SubLeftmost | tool/add_timeouts_to_tests.py:41 | `re.sub` is the text before the leftmost match, the replacement of that match, then the substitution after it |
| Patterns.SubNoMatch | tool/add_timeouts_to_tests.py:41 | with no further match, the rest of the text is copied |
| Patterns.SubUnchanged | tool/add_timeouts_to_tests.py:41 | `re.sub` with no match returns the text unchanged |
| Patterns.SubLeftmostContains | tool/add_timeouts_to_tests.py:41 | what the replacement of the first match contains, the result contains |
| Patterns.SubBeforeLast | tool/add_timeouts_to_tests.py:39 | when the text ends with a match, and earlier matches stay before it, the substitution is that of the prefix followed by the replacement of the final match |
| Patterns.SubAtLast | tool/add_timeouts_to_tests.py:39 | a final match at the end of the text is replaced after the substitution of the prefix |
| Patterns.SubStepAgree | tool/add_timeouts_to_tests.py:39 | a text and its prefix take the same substitution step while their matches agree |
| Patterns.SubMatchBoth | tool/add_timeouts_to_tests.py:39 | a match found in both a text and its prefix is replaced the same way in both |
| Patterns.OpenImpliesDecl | tool/add_all_timeouts.py:96-113 | a text that opens an async test also declares one |
| Patterns.BlockClosing | tool/add_timeouts_to_tests.py:32 | the block expression matches exactly when the declaration matches and `\}\s*;` matches at the first `}` after it |
| Patterns.BraceSemiExact | tool/add_timeouts_to_tests.py:39 | `\}\s*;` matches from `q` to `e` exactly when `s[q]` is `}`, `s[e-1]` is `;` and only whitespace lies between |
| Patterns.BlockMissesUsualClosing | tool/add_timeouts_to_tests.py:32 | a test whose first `}` is followed by `)`, as in the usual `});`, is not matched by the block expression |
| Injection.Suffix | tool/add_timeouts_to_tests.py:83 | the replacement `}, timeout: Timeout(Duration(seconds: N)));`; `SuffixCounts` and `SuffixMarks` state its content |
| Injection.Inject | tool/add_timeouts_to_tests.py:83 | `line.replace('});', suffix)`; characterised by `InjectMarks`, `InjectNoClose`, `InjectCounts` and `Declarations.DeclaresInject` |
| Injection.HasTimeout | tool/add_timeouts_to_tests.py:82 | `'timeout:' in x or 'Timeout(' in x`, the per-line and per-match guard |
| Injection.Eligible | tool/add_all_timeouts.py:110 | a line holding `});` and neither guard word, the lines every rewriter may change |
| Injection.Delta | tool/add_timeouts_to_tests.py:79 | `line.count('{') - line.count('}')`; `InjectCounts` shows injection keeps it |
| Injection.CountedIndicesAppend | tool/add_timeouts_to_tests.py:115-119 | the set of counted positions grows by one exactly when the appended result counts, so the `modified_count` of both drivers is the number of counted results |
| Injection.SuffixCounts | tool/add_all_timeouts.py:117 | the timeout suffix has one `}`, no `{` and no newline, like `});` |
| Injection.SuffixMarks | tool/add_all_timeouts.py:117 | the suffix carries the file-wide marker and both per-line guard words |
| Injection.MarkerWords | tool/add_all_timeouts.py:92 | the file-wide marker contains both `timeout:` and `Timeout(` |
| Injection.MarkerHasTimeout | tool/add_timeouts_to_tests.py:23 | a text holding the marker trips the per-line guard |
| Injection.InjectCounts | tool/add_timeouts_to_tests.py:79-83 | injection keeps a line's `{`, `}` and newline counts, so it keeps the line's balance and later scans see the same depths |
| Injection.InjectNoNewline | tool/add_timeouts_to_tests.py:83 | a line stays a single line after injection |
| Injection.InjectMarks | tool/add_timeouts_to_tests.py:82-83 | injecting into a line with `});` leaves the marker there, so the line is no longer eligible |
| Injection.InjectNoClose | tool/add_timeouts_to_tests.py:83 | a line without `});` is not changed by the replace |
| Declarations.DeclaresInject | tool/add_timeouts_to_tests.py:73-83 | a line declares an async test exactly when its injected form does, for every line and every timeout |
| Declarations.DeclSpanShape | tool/add_timeouts_to_tests.py:73 | a declaration match starts with `t` and ends with `c`; each `)` in it is followed by whitespace or `a` and then only by characters of `\s*async`, and a part without `)` is all such characters; so no match overlaps `});` or the suffix |
| Declarations.ContainsAgree | tool/add_timeouts_to_tests.py:83 | a declaration match occurs in a line exactly when it occurs after the `replace` of every `});` |
| Declarations.SuffixBlocker | tool/add_timeouts_to_tests.py:83 | the suffix opens with `}`, has no `)` before its first `))`, and from there on holds only `)` and `;` |
| AllTimeouts.BlockEnd | tool/add_all_timeouts.py:46-55 | the line after the look-ahead; `BlockEndIsFirstClose` characterises it |
| AllTimeouts.Injects | tool/add_all_timeouts.py:44-60 | the body's decision to inject; `InjectsExactly` characterises it |
| AllTimeouts.Scan | tool/add_all_timeouts.py:39-71 | the outer `while` loop as a function of the lines; characterised by `ScanCopies`, `BlockScan`, `BlockRewrite`, `OneLineBlockRewrite` and `ScanShrinks`, and computed by `ScanLines` |
| AllTimeouts.AddTimeoutRewrite | tool/add_all_timeouts.py:16-83 | what `add_timeout_to_file` leaves and returns; characterised by `AddTimeoutToFile` and `AddTimeoutLines` |
| AllTimeouts.ScanEnd | tool/add_all_timeouts.py:52-55 | the look-ahead stops at the first line where the running depth is no longer positive, or at the end of the file |
| AllTimeouts.BlockEndIsFirstClose | tool/add_all_timeouts.py:46-55 | the look-ahead end is exactly the first line after which the depth counted from the declaration is not positive |
| AllTimeouts.LookAhead | tool/add_all_timeouts.py:46-55 | the `while` loop stops at that block end |
| AllTimeouts.CheckBlock | tool/add_all_timeouts.py:44-60 | the loop body decides to inject exactly when the declaration's block qualifies, and then reports the block end |
| AllTimeouts.InjectsExactly | tool/add_all_timeouts.py:52-60 | a declaration gets an injection exactly when its block closes before the last line and the closing line has `});` and no timeout, which rules out each no-injection case |
| AllTimeouts.ScanCopies | tool/add_all_timeouts.py:39-71 | a run of lines with no declaration is copied unchanged |
| AllTimeouts.ScanUnmodified | tool/add_all_timeouts.py:37-71 | when nothing was injected, the output lines are the input lines |
| AllTimeouts.ScanShrinks | tool/add_all_timeouts.py:62-69 | the scan never adds lines |
| AllTimeouts.BlockScan | tool/add_all_timeouts.py:62-69 | from a qualifying declaration, the output is the rewritten closing line followed by the lines after the block |
| AllTimeouts.BlockRewrite | tool/add_all_timeouts.py:41-69 | a single multi-line test on lines i..j-1 comes out as the lines before it, the rewritten line j-1 at position i, and the lines after it, so j-1-i lines fewer |
| AllTimeouts.OneLineBlockRewrite | tool/add_all_timeouts.py:46-69 | when no other line of the file opens a test, a declaration balanced on its own line (not the last) is rewritten in place, and every other line stays identical |
| AllTimeouts.ScanStep | tool/add_all_timeouts.py:40-71 | one iteration of the outer loop advances and extends the output as the scan prescribes |
| AllTimeouts.ScanLines | tool/add_all_timeouts.py:39-71 | the outer `while` loop computes the scan's lines and modified flag |
| AllTimeouts.InjectKeepsLines | tool/add_all_timeouts.py:62-65 | the injection never adds a newline to a line |
| AllTimeouts.ScanNoNewlines | tool/add_all_timeouts.py:34-74 | the output lines hold no newline, so the written file splits back into them |
| AllTimeouts.AddTimeoutLines | tool/add_all_timeouts.py:73-77 | the written file's lines are the scan's lines, and no more than the input's |
| AllTimeouts.AddTimeoutToFile | tool/add_all_timeouts.py:34-79 | the function writes the joined scan exactly when it injected something, and otherwise leaves the text |
| AllTimeouts.DeclAbove | tool/add_all_timeouts.py:112-113 | a declaration among the 50 lines strictly above; `DeclInWindow` computes it |
| AllTimeouts.SimpleLines | tool/add_all_timeouts.py:109-120 | the lines after the backward loop, a per-line map; `SimpleLoop` computes it |
| AllTimeouts.SimpleRewrite | tool/add_all_timeouts.py:85-128 | what `process_file_simple` leaves and returns; characterised by `SimpleLinesExact`, `SimpleKeepsBraces` and `SimpleIdempotent`, and computed by `ProcessFileSimple` |
| AllTimeouts.DeclInWindow | tool/add_all_timeouts.py:112-113 | the inner loop finds a declaration exactly when one lies among the 50 lines strictly above |
| AllTimeouts.SimpleLoop | tool/add_all_timeouts.py:109-120 | the backward loop yields the per-line map, and its flag is set exactly when some line qualifies |
| AllTimeouts.ProcessFileSimple | tool/add_all_timeouts.py:85-128 | the rewrite matches the per-line definition, and the text is unchanged and False returned when the marker is present or no async test opens anywhere |
| AllTimeouts.SimpleLinesExact | tool/add_all_timeouts.py:104-123 | the result has as many lines as the input; once the file-wide guards pass, line i is the injected line exactly when it has `});`, no timeout and a declaration among the 50 lines above |
| AllTimeouts.SimpleKeepsBraces | tool/add_all_timeouts.py:115-118 | every line keeps its counts of `{` and `}` |
| AllTimeouts.SimpleIdempotent | tool/add_all_timeouts.py:92-128 | an unmodified run leaves the text as it was, and a second run with any timeout changes nothing |
| AllTimeouts.TimeoutFor | tool/add_all_timeouts.py:157-158 | the timeout is 10 exactly for the network file names and 5 for all others |
| AllTimeouts.FileOutcome | tool/add_all_timeouts.py:152-164 | what `main` does with one file; `FileOutcomeCases` characterises it |
| AllTimeouts.FileOutcomeCases | tool/add_all_timeouts.py:152-164 | a file is skipped exactly when it is already processed; otherwise it counts as modified exactly when the rewrite with its timeout modified it |
| AllTimeouts.ProcessOne | tool/add_all_timeouts.py:153-164 | one iteration of `main` yields that outcome |
| AllTimeouts.ProcessAll | tool/add_all_timeouts.py:151-167 | `main` gives every file its outcome in order, and `modified_count` is the number of modified files |
| TestTimeouts.AddTimeout | tool/add_timeouts_to_tests.py:34-39 | the inner `add_timeout`; `MatchEndsWithSuffix`, `SliceRewrite` and `InnerGuardDead` characterise it |
| TestTimeouts.AddTimeoutToTest | tool/add_timeouts_to_tests.py:16-41 | `add_timeout_to_test`; characterised by `AddTimeoutToTestCases`, `AddTimeoutToTestMarks` and `AddTimeoutToTestIdempotent` |
| TestTimeouts.InnerGuardDead | tool/add_timeouts_to_tests.py:23-37 | under the outer guard, no match triggers the guard of `add_timeout` |
| TestTimeouts.ClosingBrace | tool/add_timeouts_to_tests.py:32 | a block match ends with `\}\s*;` at the first `}` after the declaration |
| TestTimeouts.MatchRewrite | tool/add_timeouts_to_tests.py:32-39 | inside a match, the inner `re.sub` rewrites the body before that `}` as it would alone and puts the suffix at the end |
| TestTimeouts.SliceRewrite | tool/add_timeouts_to_tests.py:39 | a match that ends in `\}\s*;` has that final closing replaced by the suffix |
| TestTimeouts.MatchEndsWithSuffix | tool/add_timeouts_to_tests.py:34-39 | `add_timeout` puts the timeout suffix into every match that has no timeout |
| TestTimeouts.AddTimeoutToTestCases | tool/add_timeouts_to_tests.py:23-41 | the text is unchanged when it holds a guard word or has no block; otherwise the text before the first block is copied, that block goes through `add_timeout`, and the substitution continues after it |
| TestTimeouts.AddTimeoutToTestSuffix | tool/add_timeouts_to_tests.py:39-41 | when a block exists and there is no timeout yet, the result holds the suffix |
| TestTimeouts.AddTimeoutToTestMarks | tool/add_timeouts_to_tests.py:23-41 | for text without a timeout, the result holds the marker exactly when a block exists |
| TestTimeouts.AddTimeoutToTestIdempotent | tool/add_timeouts_to_tests.py:23-41 | a second call, with any timeout, returns the first call's result |
| TestTimeouts.TimeoutOf | tool/add_timeouts_to_tests.py:45 | the timeout is 10 exactly for a network test and 5 otherwise |
| TestTimeouts.CloseFrom | tool/add_timeouts_to_tests.py:76-86 | the look-ahead stops on a line that holds `});` |
| TestTimeouts.ClosesAtStep | tool/add_timeouts_to_tests.py:78-79 | a depth that first reaches zero on line j from line k is one that does so from line k+1 after adding line k's balance |
| TestTimeouts.CloseFromExact | tool/add_timeouts_to_tests.py:76-86 | the look-ahead breaks at line j exactly when the depth first returns to exactly zero there and line j holds `});` |
| TestTimeouts.DeclarationClose | tool/add_timeouts_to_tests.py:72-86 | from a declaration on line i, the chosen line is the first j > i where the depth, starting at 1, reaches zero, provided it holds `});` |
| TestTimeouts.LookAheadClose | tool/add_timeouts_to_tests.py:76-86 | the inner `while` loop finds that line |
| TestTimeouts.StepAt | tool/add_timeouts_to_tests.py:73-86 | one iteration keeps the number of lines |
| TestTimeouts.Forward | tool/add_timeouts_to_tests.py:72-86 | the loop keeps the number of lines |
| TestTimeouts.StepDescends | tool/add_timeouts_to_tests.py:80-84 | one iteration only injects into an eligible line that is still as it was |
| TestTimeouts.ForwardDescends | tool/add_timeouts_to_tests.py:72-86 | after the loop, every line is either its original or the injection of an eligible original |
| TestTimeouts.ForwardUnmodified | tool/add_timeouts_to_tests.py:68-86 | when nothing was modified, the lines are unchanged |
| TestTimeouts.ForwardKeepsTimeout | tool/add_timeouts_to_tests.py:82 | a line that already has a timeout is never touched |
| TestTimeouts.StepModifies | tool/add_timeouts_to_tests.py:82-84 | a modifying iteration gives a timeout to a line that had none |
| TestTimeouts.ForwardModified | tool/add_timeouts_to_tests.py:72-86 | when the loop modified something, some line gained a timeout |
| TestTimeouts.ForwardFlagExact | tool/add_timeouts_to_tests.py:68-86 | the modified flag is set exactly when the lines changed |
| TestTimeouts.ForwardLines | tool/add_timeouts_to_tests.py:67-86 | the `for` loop computes the forward scan's lines and flag |
| TestTimeouts.ProcessFileRewrite | tool/add_timeouts_to_tests.py:43-95 | what `process_file` leaves and returns; characterised by `ProcessFileLines` and `ProcessFileIdempotent`, and computed by `ProcessFile` |
| TestTimeouts.ProcessFile | tool/add_timeouts_to_tests.py:43-95 | the rewrite matches the forward scan, and the text is unchanged and False returned when the marker is present or no async test opens anywhere |
| TestTimeouts.ClosesAtSame | tool/add_timeouts_to_tests.py:78-80 | lines with the same brace balances close their blocks on the same lines, so injected lines do not move a later close |
| TestTimeouts.StepOnlyCloses | tool/add_timeouts_to_tests.py:73-84 | the line one iteration rewrites is the close of the declaration on line i, counted in the original lines |
| TestTimeouts.ForwardOnlyCloses | tool/add_timeouts_to_tests.py:72-86 | every line the loop changes closes some declaration above it in the original lines |
| TestTimeouts.StepServed | tool/add_timeouts_to_tests.py:73-84 | after the iteration at line i, the close of every declaration up to line i is rewritten if it was eligible, and lines already rewritten stay so |
| TestTimeouts.ForwardServed | tool/add_timeouts_to_tests.py:72-86 | after the loop, every eligible close of every declaration is rewritten |
| TestTimeouts.ForwardCloses | tool/add_timeouts_to_tests.py:72-86 | when the declaration test gives a line and its injected form the same answer, the loop changes line k exactly when it is eligible and closes a declaration above it |
| TestTimeouts.ProcessFileLines | tool/add_timeouts_to_tests.py:53-93 | the line count is preserved; each line is either unchanged or an eligible line injected with the file's timeout; every line keeps its brace balance; the flag is set exactly when the text changed; the text is unchanged when the marker is present or no test opens; otherwise line k changes exactly when it holds `});`, has no timeout, and is where the braces first close the block of a test declared on a line above it |
| TestTimeouts.ForwardFlagTimeoutFree | tool/add_timeouts_to_tests.py:45-86 | whether the loop modifies anything is the same for every timeout |
| TestTimeouts.ProcessFileIdempotent | tool/add_timeouts_to_tests.py:53-93 | a second run, with either network flag, changes nothing, and a modified file holds the marker |
| TestTimeouts.TestOutcome | tool/add_timeouts_to_tests.py:116-119 | what `main` does with one file; `ProcessTest` computes it |
| TestTimeouts.ProcessTest | tool/add_timeouts_to_tests.py:117-118 | a file is processed as a network test exactly when its name is in the network set |
| TestTimeouts.ProcessTests | tool/add_timeouts_to_tests.py:115-119 | `main` processes every file in order, and `modified_count` is the number of modified files |

## Left out

- File input and output, `print`, `sys.exit`, the `test` directory check,
  `Path.glob` and the `except Exception` handlers. A rewrite is a function
  from a file's text to its new text and return value. A read failure and
  its `False` are not modelled.
- `sorted()` over the paths. The drivers take the files as a sequence that
  is already in order.
- General `re` semantics. Only the four expressions the scripts use are
  modelled, by the matcher in Patterns.
- The expression built from `test_name` in `add_timeout_to_test`, and the
  unused `test_lines` and `original_content`. These values are never read.
- The benchmark script. It times an external XML library with a wall clock.
- Newline translation. Every file is opened in text mode, so reading turns
  `\r\n` and a lone `\r` into `\n`, and writing emits `os.linesep` for each
  `\n`. The model's input is the text after that translation, and its output
  is the text before it.
- Default arguments. `timeout=DEFAULT_TIMEOUT` of `add_timeout_to_file`,
  `process_file_simple` and `add_timeout_to_test`, and `network_test=False`
  of `process_file`, are required parameters in the model. The drivers
  always pass them.
