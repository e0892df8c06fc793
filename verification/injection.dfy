/**
 What both timeout tools share: the two durations, the closing token `});`,
 the timeout suffix that replaces it, the substring guards, and the brace
 balance of a line.
 */
module Injection {
  import opened Text

  /** Timeout for most test files, in seconds. */
  const DEFAULT_TIMEOUT: int := 5
  /** Timeout for network/discovery test files, in seconds. */
  const NETWORK_TIMEOUT: int := 10

  /** The file names that get `NETWORK_TIMEOUT`. */
  const NETWORK_FILES: set<string> := {"discovery_test.dart", "zonegroupstate_test.dart"}

  /** The closing token of `test(..., () async { ... });`. */
  const CLOSE: string := "});"

  /** The two words whose presence means a line or text already has a timeout. */
  const TIMEOUT_ARG: string := "timeout:"
  const TIMEOUT_CALL: string := "Timeout("

  /** The file-wide marker of an already injected timeout:
      `timeout: Timeout(Duration(seconds:`. */
  const MARKER: string := TIMEOUT_ARG + " " + TIMEOUT_CALL + "Duration(seconds:"

  /** The text that replaces `});`:
      `}, timeout: Timeout(Duration(seconds: <timeout>)));`. */
  function Suffix(timeout: int): string {
    "}, " + MARKER + " " + DecimalString(timeout) + ")));"
  }

  /** `line.replace('});', suffix)`: every closing token gets the timeout. */
  function Inject(line: string, timeout: int): string {
    ReplaceAll(line, CLOSE, Suffix(timeout))
  }

  /** `Inject` with the timeout fixed, as a function of the line. */
  function InjectFor(timeout: int): string -> string {
    line => Inject(line, timeout)
  }

  /** The per-line (or per-match) guard: `'timeout:' in x or 'Timeout(' in x`. */
  predicate HasTimeout(x: string) {
    Contains(x, TIMEOUT_ARG) || Contains(x, TIMEOUT_CALL)
  }

  /** A closing line the tools may rewrite: it holds `});` and no timeout yet. */
  predicate Eligible(line: string) {
    Contains(line, CLOSE) && !HasTimeout(line)
  }

  /** What rewriting one file's text leaves: the file's text afterwards and the
      rewriter's return value, which is true exactly when it wrote the file. */
  datatype Rewrite = Rewrite(text: string, modified: bool)

  /** A test file as the batch drivers see it: its name and its text. */
  datatype SourceFile = SourceFile(name: string, text: string)

  /** A rewrite that reported a modification, which is what `main` counts. */
  predicate Reported(r: Rewrite) {
    r.modified
  }

  /** The positions of the results a driver counts; `modified_count` is the
      size of this set. */
  function CountedIndices<R>(results: seq<R>, counts: R -> bool): set<nat> {
    set k: nat | k < |results| && counts(results[k])
  }

  /** The lines of a line-based rewrite and whether it rewrote any. */
  datatype LineScan = LineScan(lines: seq<string>, modified: bool)

  /** `line.count('{') - line.count('}')`: how much a line deepens the nesting. */
  function Delta(line: string): int {
    CountChar(line, '{') - CountChar(line, '}')
  }

  /** The net brace depth that `lines[i..j]` contribute. */
  function Depth(lines: seq<string>, i: nat, j: nat): int
    requires i <= j <= |lines|
    decreases j - i
  {
    if i == j then 0 else Delta(lines[i]) + Depth(lines, i + 1, j)
  }

  // ---------------------------------------------------------------------------
  // Lemmas
  // ---------------------------------------------------------------------------

  /** The suffix has the braces and newlines of `});` (one `}`, no `{`, no newline). */
  lemma SuffixCounts(timeout: int, c: char)
    requires c == '{' || c == '}' || c == '\n'
    ensures CountChar(Suffix(timeout), c) == CountChar(CLOSE, c)
  {
    var rest := ", " + MARKER + " " + DecimalString(timeout) + ")));";
    assert Suffix(timeout) == "}" + rest;
    SuffixRestCount(timeout, c);
    CountConcat("}", rest, c);
    CloseCount(c);
  }

  /** After its leading `}`, the suffix holds no brace and no newline. */
  lemma SuffixRestCount(timeout: int, c: char)
    requires c == '{' || c == '}' || c == '\n'
    ensures CountChar(", " + MARKER + " " + DecimalString(timeout) + ")));", c) == 0
  {
    var digits := DecimalString(timeout);
    assert c !in digits;
    MarkerNoBrace(c);
    assert c !in ", " + MARKER + " ";
    assert c !in ")));";
    CountAbsent(", " + MARKER + " " + digits + ")));", c);
  }

  /** The marker holds no brace and no newline. */
  lemma MarkerNoBrace(c: char)
    requires c == '{' || c == '}' || c == '\n'
    ensures c !in MARKER
  {
    assert c !in TIMEOUT_ARG;
    assert c !in TIMEOUT_CALL;
    assert c !in "Duration(seconds:";
  }

  /** `});` is `}` followed by no brace and no newline. */
  lemma CloseCount(c: char)
    requires c == '{' || c == '}' || c == '\n'
    ensures CountChar(CLOSE, c) == CountChar("}", c)
  {
    assert CLOSE == "}" + ");";
    assert c !in ");";
    CountAbsent(");", c);
    CountConcat("}", ");", c);
  }

  /** The marker holds both per-line guard words. */
  lemma MarkerWords()
    ensures Contains(MARKER, TIMEOUT_ARG) && Contains(MARKER, TIMEOUT_CALL)
  {
    ContainsSelf(TIMEOUT_ARG);
    ContainsInfix("", TIMEOUT_ARG, " " + TIMEOUT_CALL + "Duration(seconds:", TIMEOUT_ARG);
    assert "" + TIMEOUT_ARG + (" " + TIMEOUT_CALL + "Duration(seconds:") == MARKER;
    ContainsSelf(TIMEOUT_CALL);
    ContainsInfix(TIMEOUT_ARG + " ", TIMEOUT_CALL, "Duration(seconds:", TIMEOUT_CALL);
  }

  /** The suffix carries the file-wide marker and both per-line guard words. */
  lemma SuffixMarks(timeout: int)
    ensures Contains(Suffix(timeout), MARKER)
    ensures Contains(Suffix(timeout), TIMEOUT_ARG)
    ensures Contains(Suffix(timeout), TIMEOUT_CALL)
  {
    var s := Suffix(timeout);
    ContainsSelf(MARKER);
    assert s == "}, " + MARKER + (" " + DecimalString(timeout) + ")));");
    ContainsInfix("}, ", MARKER, " " + DecimalString(timeout) + ")));", MARKER);
    MarkerWords();
    ContainsTrans(s, MARKER, TIMEOUT_ARG);
    ContainsTrans(s, MARKER, TIMEOUT_CALL);
  }

  /** Injection keeps a line's `{` and `}` counts, so it keeps its `Delta`,
      and it adds no newline. */
  lemma InjectCounts(line: string, timeout: int)
    ensures CountChar(Inject(line, timeout), '{') == CountChar(line, '{')
    ensures CountChar(Inject(line, timeout), '}') == CountChar(line, '}')
    ensures CountChar(Inject(line, timeout), '\n') == CountChar(line, '\n')
    ensures Delta(Inject(line, timeout)) == Delta(line)
  {
    assert line[0..] == line;
    SuffixCounts(timeout, '{');
    ReplaceKeepsCount(line, CLOSE, Suffix(timeout), 0, '{');
    SuffixCounts(timeout, '}');
    ReplaceKeepsCount(line, CLOSE, Suffix(timeout), 0, '}');
    SuffixCounts(timeout, '\n');
    ReplaceKeepsCount(line, CLOSE, Suffix(timeout), 0, '\n');
  }

  /** A line without a newline stays without one. */
  lemma InjectNoNewline(line: string, timeout: int)
    requires '\n' !in line
    ensures '\n' !in Inject(line, timeout)
  {
    CountAbsent(line, '\n');
    InjectCounts(line, timeout);
    CountZeroAbsent(Inject(line, timeout), '\n');
  }

  /** Injecting into a line that holds `});` leaves the marker in it, so the
      line is no longer eligible and the file-wide guard trips. */
  lemma InjectMarks(line: string, timeout: int)
    requires Contains(line, CLOSE)
    ensures Contains(Inject(line, timeout), MARKER)
    ensures HasTimeout(Inject(line, timeout))
    ensures !Eligible(Inject(line, timeout))
  {
    ContainsExists(line, CLOSE);
    var k: nat :| k <= |line| && OccursAt(line, CLOSE, k);
    ReplaceInsertsRep(line, CLOSE, Suffix(timeout), 0, k);
    SuffixMarks(timeout);
    ContainsTrans(Inject(line, timeout), Suffix(timeout), MARKER);
    ContainsTrans(Inject(line, timeout), Suffix(timeout), TIMEOUT_ARG);
  }

  /** A line without `});` is left as it is. */
  lemma InjectNoClose(line: string, timeout: int)
    requires !Contains(line, CLOSE)
    ensures Inject(line, timeout) == line
  {
    ContainsExists(line, CLOSE);
    ReplaceNoOccurrence(line, CLOSE, Suffix(timeout), 0);
  }

  /** Depth counted from line `i` is line `i`'s own balance plus the rest. */
  lemma DepthStep(lines: seq<string>, i: nat, k: nat)
    requires i < k <= |lines|
    ensures Depth(lines, i, k) == Delta(lines[i]) + Depth(lines, i + 1, k)
  {
  }

  /** Appending one result adds one counted position exactly when that result
      counts. */
  lemma CountedIndicesAppend<R>(results: seq<R>, r: R, counts: R -> bool)
    ensures |CountedIndices(results + [r], counts)| == |CountedIndices(results, counts)| + (if counts(r) then 1 else 0)
  {
    var rs := results + [r];
    if counts(r) {
      assert CountedIndices(rs, counts) == CountedIndices(results, counts) + {|results|};
    } else {
      assert CountedIndices(rs, counts) == CountedIndices(results, counts);
    }
  }

  /** A text holding the marker trips the per-line guard too. */
  lemma MarkerHasTimeout(x: string)
    requires Contains(x, MARKER)
    ensures HasTimeout(x)
  {
    MarkerWords();
    ContainsTrans(x, MARKER, TIMEOUT_ARG);
  }
}
