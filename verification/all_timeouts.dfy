/**
 The script that adds timeouts to every async Dart test file
 (tool/add_all_timeouts.py): its two rewriters, `add_timeout_to_file` (a
 forward scan that follows brace depth from each declaration line) and
 `process_file_simple` (a backward scan that looks for a declaration in the
 50 lines above each closing line), and the classification in its `main`.

 File reads and writes are left out: each rewriter is a function from the
 file's text to a `Rewrite`, the text the file holds afterwards and the
 rewriter's return value.
 */
module AllTimeouts {
  import opened Text
  import opened Patterns
  import opened Injection

  // ---------------------------------------------------------------------------
  // add_timeout_to_file
  // ---------------------------------------------------------------------------

  /** The inner `while j < len(lines) and brace_count > 0` loop, entered at line
      `j` with `depth` open braces: the index `j` it stops at. */
  function ScanEnd(lines: seq<string>, j: nat, depth: int): (r: nat)
    requires j <= |lines|
    ensures j <= r <= |lines|
    ensures forall k :: j <= k < r ==> depth + Depth(lines, j, k) > 0
    ensures r < |lines| ==> depth + Depth(lines, j, r) <= 0
    decreases |lines| - j
  {
    if j < |lines| && depth > 0 then ScanEnd(lines, j + 1, depth + Delta(lines[j])) else j
  }

  /** Where the look-ahead from the declaration on line `i` stops: one past the
      block's last line, or `|lines|` when the depth never drops to zero. */
  function BlockEnd(lines: seq<string>, i: nat): nat
    requires i < |lines|
  {
    ScanEnd(lines, i + 1, Delta(lines[i]))
  }

  /** `k` is the first index after `i` at which the depth counted from line `i`
      drops to zero or below, or `|lines|` if there is none. */
  ghost predicate FirstClose(lines: seq<string>, i: nat, k: nat) {
    && i < k <= |lines|
    && (forall m :: i < m < k ==> Depth(lines, i, m) > 0)
    && (k == |lines| || Depth(lines, i, k) <= 0)
  }

  /** The declaration on line `i` (by `opens`) gets its closing line
      rewritten. The scan's lemmas hold for any `opens`;
      `add_timeout_to_file` uses `OpensTest`. */
  predicate Injects(lines: seq<string>, i: nat, opens: string -> bool)
    requires i < |lines|
  {
    && opens(lines[i])
    && BlockEnd(lines, i) < |lines|
    && Eligible(lines[BlockEnd(lines, i) - 1])
  }

  /** The scan of `add_timeout_to_file` from line `i`: a rewritten block
      contributes one line, its closing line rewritten by `fix`, in the slot
      of the declaration line, and the scan resumes after the block. The
      scan's lemmas hold for any `fix`; `add_timeout_to_file` uses
      `InjectFor(timeout)`. */
  function Scan(lines: seq<string>, i: nat, fix: string -> string, opens: string -> bool): LineScan
    requires i <= |lines|
    decreases |lines| - i
  {
    if i == |lines| then LineScan([], false)
    else if Injects(lines, i, opens) then
      var j := BlockEnd(lines, i);
      var rest := Scan(lines, j, fix, opens);
      LineScan([fix(lines[j - 1])] + rest.lines, true)
    else
      var rest := Scan(lines, i + 1, fix, opens);
      LineScan([lines[i]] + rest.lines, rest.modified)
  }

  /** What `add_timeout_to_file` leaves in the file and returns. */
  function AddTimeoutRewrite(content: string, timeout: int): Rewrite {
    var r := Scan(Split(content), 0, InjectFor(timeout), OpensTest);
    if r.modified then Rewrite(Join(r.lines), true) else Rewrite(content, false)
  }

  /** The look-ahead loop of `add_timeout_to_file`: starting with the
      declaration line's own balance, add each following line's balance while
      the depth stays positive. */
  method LookAhead(lines: seq<string>, i: nat) returns (j: nat)
    requires i < |lines|
    ensures j == BlockEnd(lines, i)
  {
    var depth := Delta(lines[i]);
    j := i + 1;
    while j < |lines| && depth > 0
      invariant i + 1 <= j <= |lines|
      invariant ScanEnd(lines, j, depth) == BlockEnd(lines, i)
      decreases |lines| - j
    {
      depth := depth + Delta(lines[j]);
      j := j + 1;
    }
  }

  /** The index-jumping loop of `add_timeout_to_file` over the file's lines:
      the lines it collects in `modified_lines` and its `modified` flag. */
  method ScanLines(lines: seq<string>, fix: string -> string, opens: string -> bool) returns (acc: seq<string>, modified: bool)
    ensures LineScan(acc, modified) == Scan(lines, 0, fix, opens)
  {
    var n := |lines|;
    acc := [];
    var i := 0;
    modified := false;
    ghost var goal := Scan(lines, 0, fix, opens);
    while i < n
      invariant 0 <= i <= n
      invariant acc + Scan(lines, i, fix, opens).lines == goal.lines
      invariant (modified || Scan(lines, i, fix, opens).modified) == goal.modified
      decreases n - i
    {
      var injected;
      acc, injected, i := ScanStep(lines, i, fix, opens, acc);
      if injected {
        modified := true;
      }
    }
    assert Scan(lines, n, fix, opens) == LineScan([], false);
    assert acc + [] == acc;
  }

  /** One pass of the loop body at line `i`: append the line, and if its
      block gets the timeout, overwrite that last entry with the rewritten
      closing line and jump past the block. The collected lines followed by
      what the scan yields from the new index are what they were before. */
  method ScanStep(lines: seq<string>, i: nat, fix: string -> string, opens: string -> bool, acc: seq<string>)
    returns (acc2: seq<string>, injected: bool, next: nat)
    requires i < |lines|
    ensures i < next <= |lines|
    ensures acc2 + Scan(lines, next, fix, opens).lines == acc + Scan(lines, i, fix, opens).lines
    ensures (injected || Scan(lines, next, fix, opens).modified) == Scan(lines, i, fix, opens).modified
  {
    var line := lines[i];
    acc2 := acc + [line];
    var inject, j := CheckBlock(lines, i, opens);
    if inject {
      assert acc2[..|acc2| - 1] == acc;
      ScanInjectStep(lines, i, fix, opens);
      acc2 := acc2[..|acc2| - 1] + [fix(lines[j - 1])];
      return acc2, true, j;
    }
    ScanSkipStep(lines, i, fix, opens);
    return acc2, false, i + 1;
  }

  /** The tests `add_timeout_to_file` makes on line `i`: whether it opens an
      async test whose block closes before the last line on a line holding
      `});` and no timeout, and where the look-ahead stopped. */
  method CheckBlock(lines: seq<string>, i: nat, opens: string -> bool) returns (inject: bool, j: nat)
    requires i < |lines|
    ensures inject == Injects(lines, i, opens)
    ensures inject ==> j == BlockEnd(lines, i)
  {
    inject := false;
    j := i + 1;
    if opens(lines[i]) {
      j := LookAhead(lines, i);
      if j < |lines| && Contains(lines[j - 1], CLOSE) {
        var closing := lines[j - 1];
        inject := !Contains(closing, TIMEOUT_ARG) && !Contains(closing, TIMEOUT_CALL);
      }
    }
  }

  /** `add_timeout_to_file`: the text it leaves in the file and its return value. */
  method AddTimeoutToFile(content: string, timeout: int) returns (out: string, modified: bool)
    ensures Rewrite(out, modified) == AddTimeoutRewrite(content, timeout)
  {
    var lines := Split(content);
    var acc;
    acc, modified := ScanLines(lines, InjectFor(timeout), OpensTest);
    if modified {
      out := Join(acc);
    } else {
      out := content;
    }
  }

  lemma ScanInjectStep(lines: seq<string>, i: nat, fix: string -> string, opens: string -> bool)
    requires i < |lines| && Injects(lines, i, opens)
    ensures var j := BlockEnd(lines, i);
            Scan(lines, i, fix, opens) == LineScan([fix(lines[j - 1])] + Scan(lines, j, fix, opens).lines, true)
  {
  }

  lemma ScanSkipStep(lines: seq<string>, i: nat, fix: string -> string, opens: string -> bool)
    requires i < |lines| && !Injects(lines, i, opens)
    ensures Scan(lines, i, fix, opens) == LineScan([lines[i]] + Scan(lines, i + 1, fix, opens).lines, Scan(lines, i + 1, fix, opens).modified)
  {
  }

  /** The look-ahead stops exactly at the first index where the depth counted
      from the declaration line drops to zero or below (or at the end). */
  lemma BlockEndIsFirstClose(lines: seq<string>, i: nat, k: nat)
    requires i < |lines|
    ensures BlockEnd(lines, i) == k <==> FirstClose(lines, i, k)
  {
    var r := BlockEnd(lines, i);
    forall m | i + 1 <= m <= |lines|
      ensures Depth(lines, i, m) == Delta(lines[i]) + Depth(lines, i + 1, m)
    {
      DepthStep(lines, i, m);
    }
    assert FirstClose(lines, i, r) by {
      if r < |lines| {
        assert Delta(lines[i]) + Depth(lines, i + 1, r) <= 0;
      }
    }
  }

  /** When `add_timeout_to_file` rewrites a declaration's block, stated by brace
      depth: it does so exactly when the line matches the opening pattern, the
      depth drops to zero or below before the last line, and the line where
      it does holds `});` and no timeout. So there is no rewrite when the depth
      never drops, when it first drops on the last line, when that line lacks
      `});`, or when it already has `timeout:` or `Timeout(`. */
  lemma InjectsExactly(lines: seq<string>, i: nat, k: nat, opens: string -> bool)
    requires i < |lines| && FirstClose(lines, i, k)
    ensures Injects(lines, i, opens) <==> opens(lines[i]) && k < |lines| && Eligible(lines[k - 1])
  {
    BlockEndIsFirstClose(lines, i, k);
  }

  /** Lines with no declaration are copied one for one. */
  lemma {:induction false} ScanCopies(lines: seq<string>, i: nat, k: nat, fix: string -> string, opens: string -> bool)
    requires i <= k <= |lines|
    requires forall m :: i <= m < k ==> !opens(lines[m])
    ensures Scan(lines, i, fix, opens).lines == lines[i..k] + Scan(lines, k, fix, opens).lines
    ensures Scan(lines, i, fix, opens).modified == Scan(lines, k, fix, opens).modified
    decreases k - i
  {
    if i < k {
      ScanCopies(lines, i + 1, k, fix, opens);
      assert lines[i..k] == [lines[i]] + lines[i + 1..k];
    }
  }

  /** A scan that rewrites nothing copies every line. */
  lemma {:induction false} ScanUnmodified(lines: seq<string>, i: nat, fix: string -> string, opens: string -> bool)
    requires i <= |lines| && !Scan(lines, i, fix, opens).modified
    ensures Scan(lines, i, fix, opens).lines == lines[i..]
    decreases |lines| - i
  {
    if i < |lines| {
      ScanUnmodified(lines, i + 1, fix, opens);
      assert lines[i..] == [lines[i]] + lines[i + 1..];
    }
  }

  /** The scan never yields more lines than it reads. */
  lemma {:induction false} ScanShrinks(lines: seq<string>, i: nat, fix: string -> string, opens: string -> bool)
    requires i <= |lines|
    ensures |Scan(lines, i, fix, opens).lines| <= |lines| - i
    decreases |lines| - i
  {
    if i < |lines| {
      if Injects(lines, i, opens) {
        ScanShrinks(lines, BlockEnd(lines, i), fix, opens);
      } else {
        ScanShrinks(lines, i + 1, fix, opens);
      }
    }
  }

  /** A file whose one declaration (outside its own block) opens on line `i`
      and whose block first closes at line `j - 1`: the rewritten closing line
      takes the declaration's slot, lines `i + 1 .. j - 1` are dropped, and the
      output has `j - 1 - i` fewer lines. */
  lemma BlockRewrite(lines: seq<string>, i: nat, j: nat, fix: string -> string, opens: string -> bool)
    requires i < j < |lines| && FirstClose(lines, i, j)
    requires opens(lines[i]) && Eligible(lines[j - 1])
    requires forall m :: 0 <= m < i ==> !opens(lines[m])
    requires forall m :: j <= m < |lines| ==> !opens(lines[m])
    ensures Scan(lines, 0, fix, opens) == LineScan(lines[..i] + [fix(lines[j - 1])] + lines[j..], true)
    ensures |Scan(lines, 0, fix, opens).lines| == |lines| - (j - 1 - i)
  {
    ScanCopies(lines, 0, i, fix, opens);
    BlockScan(lines, i, j, fix, opens);
    assert lines[0..i] == lines[..i];
  }

  /** The scan from a declaration whose block closes at `j - 1`, with no
      declaration after the block: the rewritten closing line, then the rest. */
  lemma BlockScan(lines: seq<string>, i: nat, j: nat, fix: string -> string, opens: string -> bool)
    requires i < j < |lines| && FirstClose(lines, i, j)
    requires opens(lines[i]) && Eligible(lines[j - 1])
    requires forall m :: j <= m < |lines| ==> !opens(lines[m])
    ensures Scan(lines, i, fix, opens) == LineScan([fix(lines[j - 1])] + lines[j..], true)
  {
    BlockEndIsFirstClose(lines, i, j);
    assert Injects(lines, i, opens);
    ScanInjectStep(lines, i, fix, opens);
    ScanCopies(lines, j, |lines|, fix, opens);
    assert lines[j..|lines|] + [] == lines[j..];
  }

  /** A declaration whose braces balance on its own line, not the last, and that
      is the only one in the file: exactly that line is rewritten and every
      other line is kept. */
  lemma OneLineBlockRewrite(lines: seq<string>, i: nat, fix: string -> string, opens: string -> bool)
    requires i + 1 < |lines|
    requires opens(lines[i]) && Delta(lines[i]) <= 0 && Eligible(lines[i])
    requires forall m :: 0 <= m < |lines| && m != i ==> !opens(lines[m])
    ensures Scan(lines, 0, fix, opens) == LineScan(lines[i := fix(lines[i])], true)
  {
    assert Depth(lines, i, i + 1) == Delta(lines[i]);
    assert FirstClose(lines, i, i + 1);
    BlockRewrite(lines, i, i + 1, fix, opens);
    SpliceIsUpdate(lines, i, fix(lines[i]));
  }

  /** Replacing the slot `i` by `x` is the update at `i`. */
  lemma SpliceIsUpdate(lines: seq<string>, i: nat, x: string)
    requires i < |lines|
    ensures lines[..i] + [x] + lines[i + 1..] == lines[i := x]
  {
  }

  /** The lines of the rewritten file are the scan's lines, whether or not it was
      rewritten; so the file never gains lines. */
  lemma AddTimeoutLines(content: string, timeout: int)
    ensures Split(AddTimeoutRewrite(content, timeout).text) == Scan(Split(content), 0, InjectFor(timeout), OpensTest).lines
    ensures |Split(AddTimeoutRewrite(content, timeout).text)| <= |Split(content)|
  {
    var lines := Split(content);
    var r := Scan(lines, 0, InjectFor(timeout), OpensTest);
    ScanShrinks(lines, 0, InjectFor(timeout), OpensTest);
    if r.modified {
      InjectKeepsLines(timeout);
      ScanNoNewlines(lines, 0, InjectFor(timeout), OpensTest);
      ScanNonEmpty(lines, 0, InjectFor(timeout), OpensTest);
      SplitJoin(r.lines);
    } else {
      ScanUnmodified(lines, 0, InjectFor(timeout), OpensTest);
      assert lines[0..] == lines;
    }
  }

  /** `fix` adds no newline to a line. */
  ghost predicate KeepsLines(fix: string -> string) {
    forall x :: '\n' !in x ==> '\n' !in fix(x)
  }

  lemma InjectKeepsLines(timeout: int)
    ensures KeepsLines(InjectFor(timeout))
  {
    forall x | '\n' !in x ensures '\n' !in InjectFor(timeout)(x) {
      InjectNoNewline(x, timeout);
    }
  }

  lemma {:induction false} ScanNoNewlines(lines: seq<string>, i: nat, fix: string -> string, opens: string -> bool)
    requires i <= |lines| && NoNewlines(lines) && KeepsLines(fix)
    ensures NoNewlines(Scan(lines, i, fix, opens).lines)
    decreases |lines| - i
  {
    if i < |lines| {
      if Injects(lines, i, opens) {
        ScanNoNewlines(lines, BlockEnd(lines, i), fix, opens);
        InjectStepNoNewlines(lines, i, fix, opens);
      } else {
        ScanNoNewlines(lines, i + 1, fix, opens);
        ConsNoNewlines(lines[i], Scan(lines, i + 1, fix, opens).lines);
      }
    }
  }

  /** A rewritten block adds a line without a newline. */
  lemma InjectStepNoNewlines(lines: seq<string>, i: nat, fix: string -> string, opens: string -> bool)
    requires i < |lines| && NoNewlines(lines) && KeepsLines(fix) && Injects(lines, i, opens)
    requires NoNewlines(Scan(lines, BlockEnd(lines, i), fix, opens).lines)
    ensures NoNewlines(Scan(lines, i, fix, opens).lines)
  {
    var j := BlockEnd(lines, i);
    ScanInjectStep(lines, i, fix, opens);
    ConsNoNewlines(fix(lines[j - 1]), Scan(lines, j, fix, opens).lines);
  }

  lemma ConsNoNewlines(line: string, rest: seq<string>)
    requires '\n' !in line && NoNewlines(rest)
    ensures NoNewlines([line] + rest)
  {
    assert forall k :: 1 <= k < |rest| + 1 ==> ([line] + rest)[k] == rest[k - 1];
  }

  lemma {:induction false} ScanNonEmpty(lines: seq<string>, i: nat, fix: string -> string, opens: string -> bool)
    requires i <= |lines| && Scan(lines, i, fix, opens).modified
    ensures |Scan(lines, i, fix, opens).lines| >= 1
    decreases |lines| - i
  {
    if i < |lines| && !Injects(lines, i, opens) {
      ScanNonEmpty(lines, i + 1, fix, opens);
    }
  }

  // ---------------------------------------------------------------------------
  // process_file_simple
  // ---------------------------------------------------------------------------

  /** How far above a closing line the backward scan looks for a declaration. */
  const WINDOW: nat := 50

  /** `max(0, i - 50)`. */
  function WindowStart(i: nat): nat {
    if i >= WINDOW then i - WINDOW else 0
  }

  /** Some line among the 50 strictly above line `i` declares a test (by
      `declares`; `process_file_simple` uses `DeclaresTest`, the search for
      `test\s*\([^)]+\)\s*async`). */
  predicate DeclAbove(lines: seq<string>, i: nat, declares: string -> bool)
    requires i <= |lines|
  {
    exists j :: WindowStart(i) <= j < i && declares(lines[j])
  }

  /** Line `i` is one `process_file_simple` rewrites. */
  predicate SimpleRewrites(lines: seq<string>, i: nat, declares: string -> bool)
    requires i < |lines|
  {
    Eligible(lines[i]) && DeclAbove(lines, i, declares)
  }

  /** Line `i` after `process_file_simple`, decided from the original lines alone. */
  function SimpleLine(lines: seq<string>, i: nat, timeout: int, declares: string -> bool): string
    requires i < |lines|
  {
    if SimpleRewrites(lines, i, declares) then Inject(lines[i], timeout) else lines[i]
  }

  /** All lines after `process_file_simple`: a per-line map over the original lines. */
  function SimpleLines(lines: seq<string>, timeout: int, declares: string -> bool): seq<string> {
    seq(|lines|, i requires 0 <= i < |lines| => SimpleLine(lines, i, timeout, declares))
  }

  /** The file-wide guards of `process_file_simple`: the content has no marker
      and somewhere matches `test\s*\([^)]+\)\s*async\s*\{` (possibly across lines). */
  predicate SimpleGuardsPass(content: string) {
    !Contains(content, MARKER) && Search(OPEN, content)
  }

  /** What `process_file_simple` leaves in the file and returns. */
  function SimpleRewrite(content: string, timeout: int): Rewrite {
    var lines := Split(content);
    if SimpleGuardsPass(content) && exists i :: 0 <= i < |lines| && SimpleRewrites(lines, i, DeclaresTest) then
      Rewrite(Join(SimpleLines(lines, timeout, DeclaresTest)), true)
    else
      Rewrite(content, false)
  }

  /** The look-back loop of `process_file_simple`: whether any of the 50 lines
      above line `i` matches the declaration pattern. */
  method DeclInWindow(lines: seq<string>, i: nat, declares: string -> bool) returns (found: bool)
    requires i <= |lines|
    ensures found == DeclAbove(lines, i, declares)
  {
    var j := WindowStart(i);
    while j < i
      invariant WindowStart(i) <= j <= i
      invariant forall q :: WindowStart(i) <= q < j ==> !declares(lines[q])
      decreases i - j
    {
      if declares(lines[j]) {
        return true;
      }
      j := j + 1;
    }
    return false;
  }

  /** `process_file_simple`: the text it leaves in the file and its return
      value. */
  method ProcessFileSimple(content: string, timeout: int) returns (out: string, modified: bool)
    ensures Rewrite(out, modified) == SimpleRewrite(content, timeout)
    ensures Contains(content, MARKER) ==> out == content && !modified
    ensures !Search(OPEN, content) ==> out == content && !modified
  {
    if Contains(content, MARKER) {
      return content, false;
    }
    if !Search(OPEN, content) {
      return content, false;
    }
    var orig := Split(content);
    var lines;
    lines, modified := SimpleLoop(orig, timeout, DeclaresTest);
    if modified {
      out := Join(lines);
    } else {
      out := content;
    }
  }

  /** The backward loop of `process_file_simple`, which rewrites the lines in
      place and reads the list it rewrites. Line `i` and the lines above it
      are not yet touched when iteration `i` reads them, so every decision is
      the one the original lines give. */
  method SimpleLoop(orig: seq<string>, timeout: int, declares: string -> bool)
    returns (lines: seq<string>, modified: bool)
    ensures lines == SimpleLines(orig, timeout, declares)
    ensures modified <==> exists k :: 0 <= k < |orig| && SimpleRewrites(orig, k, declares)
  {
    lines := orig;
    modified := false;
    var i := |lines|;
    while i > 0
      invariant 0 <= i <= |lines| == |orig|
      invariant forall k :: 0 <= k < i ==> lines[k] == orig[k]
      invariant forall k :: i <= k < |orig| ==> lines[k] == SimpleLine(orig, k, timeout, declares)
      invariant modified <==> exists k :: i <= k < |orig| && SimpleRewrites(orig, k, declares)
      decreases i
    {
      i := i - 1;
      var line := lines[i];
      var rewrite := false;
      if Contains(line, CLOSE) && !Contains(line, TIMEOUT_ARG) && !Contains(line, TIMEOUT_CALL) {
        rewrite := DeclInWindow(lines, i, declares);
        assert DeclAbove(lines, i, declares) == DeclAbove(orig, i, declares);
      }
      assert rewrite == SimpleRewrites(orig, i, declares);
      if rewrite {
        lines := lines[i := Inject(line, timeout)];
        modified := true;
      }
    }
  }

  /** `process_file_simple` keeps the number of lines; once its file-wide
      guards pass, line `i` of its output is line `i` of the input, rewritten
      exactly when it holds `});`, has no timeout, and a declaration lies
      among the 50 lines above it. */
  lemma SimpleLinesExact(content: string, timeout: int)
    ensures |Split(SimpleRewrite(content, timeout).text)| == |Split(content)|
    ensures SimpleGuardsPass(content) ==>
              forall i :: 0 <= i < |Split(content)| ==>
                Split(SimpleRewrite(content, timeout).text)[i] == SimpleLine(Split(content), i, timeout, DeclaresTest)
  {
    var lines := Split(content);
    var r := SimpleRewrite(content, timeout);
    if r.modified {
      var out := SimpleLines(lines, timeout, DeclaresTest);
      forall i | 0 <= i < |out| ensures '\n' !in out[i] {
        InjectNoNewline(lines[i], timeout);
      }
      SplitJoin(out);
    } else {
      forall i | 0 <= i < |lines| ensures SimpleGuardsPass(content) ==> SimpleLine(lines, i, timeout, DeclaresTest) == lines[i] {
      }
    }
  }

  /** Every line of the output has the `{` and `}` counts of the input line. */
  lemma SimpleKeepsBraces(content: string, timeout: int)
    ensures |Split(SimpleRewrite(content, timeout).text)| == |Split(content)|
    ensures forall i :: 0 <= i < |Split(content)| ==>
              && CountChar(Split(SimpleRewrite(content, timeout).text)[i], '{') == CountChar(Split(content)[i], '{')
              && CountChar(Split(SimpleRewrite(content, timeout).text)[i], '}') == CountChar(Split(content)[i], '}')
  {
    SimpleLinesExact(content, timeout);
    var lines := Split(content);
    if SimpleGuardsPass(content) {
      forall i | 0 <= i < |lines|
        ensures CountChar(SimpleLine(lines, i, timeout, DeclaresTest), '{') == CountChar(lines[i], '{')
        ensures CountChar(SimpleLine(lines, i, timeout, DeclaresTest), '}') == CountChar(lines[i], '}')
      {
        InjectCounts(lines[i], timeout);
      }
    }
  }

  /** A rewrite leaves the marker in the file, so running `process_file_simple`
      again, with any timeout, changes nothing and returns false; and a file
      it did not rewrite is left as it was. */
  lemma SimpleIdempotent(content: string, timeout: int, timeout2: int)
    ensures !SimpleRewrite(content, timeout).modified ==> SimpleRewrite(content, timeout).text == content
    ensures var once := SimpleRewrite(content, timeout).text;
            SimpleRewrite(once, timeout2) == Rewrite(once, false)
  {
    var lines := Split(content);
    var r := SimpleRewrite(content, timeout);
    if r.modified {
      var i :| 0 <= i < |lines| && SimpleRewrites(lines, i, DeclaresTest);
      var out := SimpleLines(lines, timeout, DeclaresTest);
      InjectMarks(lines[i], timeout);
      JoinContains(out, i, MARKER);
    } else if SimpleGuardsPass(content) {
      assert !exists i :: 0 <= i < |lines| && SimpleRewrites(lines, i, DeclaresTest);
    }
  }

  // ---------------------------------------------------------------------------
  // main
  // ---------------------------------------------------------------------------

  /** Files an earlier run already handled; `main` skips them. */
  const PROCESSED_FILES: set<string> := {"core_test.dart", "alarms_test.dart", "discovery_test.dart"}

  /** What `main` does with one file. */
  datatype FileResult = Skipped | Unchanged | Modified(text: string)

  /** The timeout `main` passes for a file name: 10 seconds for the network
      files and 5 for every other file. */
  function TimeoutFor(name: string): (t: int)
    ensures t == 10 <==> name in NETWORK_FILES
    ensures t == 5 <==> name !in NETWORK_FILES
  {
    if name in NETWORK_FILES then NETWORK_TIMEOUT else DEFAULT_TIMEOUT
  }

  /** The outcome of `main` for one file. */
  function FileOutcome(f: SourceFile): FileResult {
    if f.name in PROCESSED_FILES then Skipped
    else
      var r := SimpleRewrite(f.text, TimeoutFor(f.name));
      if r.modified then Modified(r.text) else Unchanged
  }

  /** A file is skipped exactly when it is in the processed set; otherwise it
      counts as modified exactly when `process_file_simple`, given the file's
      timeout, rewrote it, and then it holds the rewritten text. */
  lemma FileOutcomeCases(f: SourceFile)
    ensures FileOutcome(f).Skipped? <==> f.name in PROCESSED_FILES
    ensures f.name !in PROCESSED_FILES ==>
              (FileOutcome(f).Modified? <==> SimpleRewrite(f.text, TimeoutFor(f.name)).modified)
    ensures FileOutcome(f).Modified? ==>
              SimpleRewrite(f.text, TimeoutFor(f.name)) == Rewrite(FileOutcome(f).text, true)
  {
  }

  /** One iteration of `main`'s loop. */
  method ProcessOne(f: SourceFile) returns (r: FileResult)
    ensures r == FileOutcome(f)
  {
    if f.name in PROCESSED_FILES {
      return Skipped;
    }
    var timeout := TimeoutFor(f.name);
    var out, changed := ProcessFileSimple(f.text, timeout);
    r := if changed then Modified(out) else Unchanged;
  }

  /** The outcomes `main` counts: the files `process_file_simple` rewrote. */
  predicate IsModified(r: FileResult) {
    r.Modified?
  }

  /** `main` over the test files in sorted order: the outcome of each file and
      `modified_count`, the number of files that were not skipped and that
      `process_file_simple` rewrote. */
  method ProcessAll(files: seq<SourceFile>) returns (results: seq<FileResult>, modifiedCount: nat)
    ensures |results| == |files|
    ensures forall k :: 0 <= k < |files| ==> results[k] == FileOutcome(files[k])
    ensures modifiedCount == |CountedIndices(results, IsModified)|
  {
    results := [];
    modifiedCount := 0;
    var i := 0;
    while i < |files|
      invariant 0 <= i <= |files| && |results| == i
      invariant forall k :: 0 <= k < i ==> results[k] == FileOutcome(files[k])
      invariant modifiedCount == |CountedIndices(results, IsModified)|
    {
      var r := ProcessOne(files[i]);
      CountedIndicesAppend(results, r, IsModified);
      results := results + [r];
      if r.Modified? {
        modifiedCount := modifiedCount + 1;
      }
      i := i + 1;
    }
  }
}
