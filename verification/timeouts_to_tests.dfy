/**
 The script that adds timeouts to the async tests of Dart test files
 (tool/add_timeouts_to_tests.py): `add_timeout_to_test`, a regular-expression
 substitution over the whole text; `process_file`, a forward scan that follows
 brace depth from each declaration line and rewrites the line that closes the
 test; and the network classification of its `main`.

 File reads and writes are left out: `process_file` is a function from the
 file's text and its classification to a `Rewrite`.
 */
module TestTimeouts {
  import opened Text
  import opened Patterns
  import opened Injection
  import opened Declarations

  // ---------------------------------------------------------------------------
  // add_timeout_to_test
  // ---------------------------------------------------------------------------

  /** The replacement of the inner `re.sub`: every `}\s*;` becomes the suffix. */
  function SuffixFor(timeout: int): string -> string {
    _ => Suffix(timeout)
  }

  /** `add_timeout`, applied to the text of one `BLOCK` match. */
  function AddTimeout(m: string, timeout: int): string {
    if HasTimeout(m) then m else Sub(BRACE_SEMI, m, SuffixFor(timeout))
  }

  /** The replacement function the outer `re.sub` calls on each match. */
  function AddTimeoutFor(timeout: int): string -> string {
    m => AddTimeout(m, timeout)
  }

  /** `add_timeout_to_test(content, test_name, timeout)`; the test name only
      feeds an expression the function never uses. */
  function AddTimeoutToTest(content: string, timeout: int): string {
    if HasTimeout(content) then content else Sub(BLOCK, content, AddTimeoutFor(timeout))
  }

  /** Under the outer guard the guard of `add_timeout` never fires: no part
      of a text without the guard words holds one. */
  lemma InnerGuardDead(content: string, q: nat, e: nat)
    requires q <= e <= |content| && !HasTimeout(content)
    ensures !HasTimeout(content[q..e])
  {
    if Contains(content[q..e], TIMEOUT_ARG) {
      ContainsSlice(content, q, e, TIMEOUT_ARG);
    }
    if Contains(content[q..e], TIMEOUT_CALL) {
      ContainsSlice(content, q, e, TIMEOUT_CALL);
    }
  }

  /** `}\s*;` matches the same way in `m` and in `m[..c]` before a `}` at `c`:
      a whitespace run cannot reach past that `}`, and where it reaches it the
      `;` is missing in both. */
  lemma BraceSemiPrefix(m: string, c: nat, p: nat)
    requires p < c < |m| && m[c] == '}'
    ensures MatchParts(BRACE_SEMI, m, p) == MatchParts(BRACE_SEMI, m[..c], p)
    ensures MatchParts(BRACE_SEMI, m, p).Some? ==> MatchParts(BRACE_SEMI, m, p).value <= c
  {
    var pre := m[..c];
    if MatchParts(BRACE_SEMI, m, p).Some? {
      var e := MatchParts(BRACE_SEMI, m, p).value;
      BraceSemiElim(m, p, e);
      assert !IsSpace('}');
      assert e <= c;
      BraceSemiIntro(pre, p, e);
    }
    if MatchParts(BRACE_SEMI, pre, p).Some? {
      var e := MatchParts(BRACE_SEMI, pre, p).value;
      BraceSemiElim(pre, p, e);
      BraceSemiIntro(m, p, e);
    }
  }

  /** The inner substitution of `m`, when `}\s*;` matches at the `}` at `c`
      and runs to the end of `m`: the text before `c` is substituted on its
      own and the last `}\s*;` becomes the suffix. */
  lemma SubBeforeClosing(m: string, c: nat, pre: string, timeout: int)
    requires c < |m| && MatchParts(BRACE_SEMI, m, c) == Some(|m|) && pre == m[..c]
    ensures Sub(BRACE_SEMI, m, SuffixFor(timeout)) ==
              Sub(BRACE_SEMI, pre, SuffixFor(timeout)) + Suffix(timeout)
  {
    BlockGreedy();
    BraceSemiAt(m, c);
    forall r | 0 <= r < c
      ensures MatchParts(BRACE_SEMI, m, r) == MatchParts(BRACE_SEMI, m[..c], r)
      ensures MatchParts(BRACE_SEMI, m, r).Some? ==> MatchParts(BRACE_SEMI, m, r).value <= c
    {
      BraceSemiPrefix(m, c, r);
    }
    assert AgreeBefore(BRACE_SEMI, m, m[..c], 0, c);
    SubBeforeLast(BRACE_SEMI, m, c, 0, SuffixFor(timeout));
  }

  /** A `}\s*;` match in `content` is one in any slice that holds it. */
  lemma BraceSemiShift(content: string, q: nat, c: nat, e: nat)
    requires q <= c <= e <= |content| && MatchParts(BRACE_SEMI, content, c) == Some(e)
    ensures MatchParts(BRACE_SEMI, content[q..e], c - q) == Some(|content[q..e]|)
  {
    var m := content[q..e];
    BraceSemiElim(content, c, e);
    assert |m| == e - q && m[c - q] == '}' && m[e - q - 1] == ';';
    forall r | c - q < r < e - q - 1 ensures IsSpace(m[r]) {
      assert m[r] == content[q + r];
    }
    BraceSemiIntro(m, c - q, e - q);
  }

  /** A `BLOCK` match ends with the `}\s*;` match at the first `}` after its
      opening `{`. */
  lemma ClosingBrace(content: string, q: nat, e: nat) returns (c: nat)
    requires q <= |content| && MatchParts(BLOCK, content, q) == Some(e)
    ensures MatchParts(OPEN, content, q).Some?
    ensures c == FindChar(content, MatchParts(OPEN, content, q).value, '}')
    ensures q < c < e && MatchParts(BRACE_SEMI, content, c) == Some(e)
  {
    BlockClosing(content, q);
    OpenGreedy();
    c := FindChar(content, MatchParts(OPEN, content, q).value, '}');
  }

  /** What the inner substitution of `add_timeout` makes of a `BLOCK` match
      `content[q..e]`: with `c` the first `}` after the opening `{`, the text
      before `c` is substituted on its own and the closing `}\s*;` becomes the
      timeout suffix. */
  lemma MatchRewrite(content: string, q: nat, e: nat, timeout: int)
    requires q <= |content| && MatchParts(BLOCK, content, q) == Some(e)
    ensures MatchParts(OPEN, content, q).Some?
    ensures var c := FindChar(content, MatchParts(OPEN, content, q).value, '}');
            && q < c < e
            && Sub(BRACE_SEMI, content[q..e], SuffixFor(timeout)) ==
                 Sub(BRACE_SEMI, content[q..c], SuffixFor(timeout)) + Suffix(timeout)
  {
    var c := ClosingBrace(content, q, e);
    SliceRewrite(content, q, c, e, timeout);
  }

  /** The inner substitution of `content[q..e]`, which ends with the
      `}\s*;` match at `c`. */
  lemma SliceRewrite(content: string, q: nat, c: nat, e: nat, timeout: int)
    requires q <= c < e <= |content| && MatchParts(BRACE_SEMI, content, c) == Some(e)
    ensures Sub(BRACE_SEMI, content[q..e], SuffixFor(timeout)) ==
              Sub(BRACE_SEMI, content[q..c], SuffixFor(timeout)) + Suffix(timeout)
  {
    BraceSemiShift(content, q, c, e);
    var m := content[q..e];
    assert m[..c - q] == content[q..c];
    SubBeforeClosing(m, c - q, content[q..c], timeout);
  }

  /** The rewritten text: unchanged under the guard or without a `BLOCK`
      match; otherwise the text before the leftmost match is copied, the match
      is rewritten by `add_timeout`, and the substitution goes on after it. */
  lemma AddTimeoutToTestCases(content: string, timeout: int)
    ensures HasTimeout(content) || !Search(BLOCK, content) ==>
              AddTimeoutToTest(content, timeout) == content
    ensures Search(BLOCK, content) <==> Leftmost(BLOCK, content, 0).Some?
    ensures !HasTimeout(content) && Leftmost(BLOCK, content, 0).Some? ==>
              var q := Leftmost(BLOCK, content, 0).value;
              var e := MatchParts(BLOCK, content, q).value;
              AddTimeoutToTest(content, timeout) ==
                content[..q] + AddTimeout(content[q..e], timeout)
                + SubFrom(BLOCK, content, e, AddTimeoutFor(timeout))
  {
    BlockGreedy();
    SearchExists(BLOCK, content, 0);
    if !HasTimeout(content) {
      if Search(BLOCK, content) {
        SubLeftmost(BLOCK, content, 0, AddTimeoutFor(timeout));
        assert content[0..Leftmost(BLOCK, content, 0).value] == content[..Leftmost(BLOCK, content, 0).value];
      } else {
        SubUnchanged(BLOCK, content, AddTimeoutFor(timeout));
      }
    }
  }

  /** Where some whole test matches `BLOCK` and the text has no guard word,
      the result holds the timeout suffix: the leftmost match ends with it. */
  lemma AddTimeoutToTestSuffix(content: string, timeout: int)
    requires !HasTimeout(content) && Search(BLOCK, content)
    ensures Contains(AddTimeoutToTest(content, timeout), Suffix(timeout))
  {
    BlockGreedy();
    SearchExists(BLOCK, content, 0);
    var q := Leftmost(BLOCK, content, 0).value;
    var e := MatchParts(BLOCK, content, q).value;
    InnerGuardDead(content, q, e);
    MatchEndsWithSuffix(content, q, e, timeout);
    SubLeftmostContains(BLOCK, content, AddTimeoutFor(timeout), Suffix(timeout));
  }

  /** A rewritten match holds the suffix. */
  lemma MatchEndsWithSuffix(content: string, q: nat, e: nat, timeout: int)
    requires q <= |content| && MatchParts(BLOCK, content, q) == Some(e)
    requires !HasTimeout(content[q..e])
    ensures Contains(AddTimeoutFor(timeout)(content[q..e]), Suffix(timeout))
  {
    MatchRewrite(content, q, e, timeout);
    var c := FindChar(content, MatchParts(OPEN, content, q).value, '}');
    var before := Sub(BRACE_SEMI, content[q..c], SuffixFor(timeout));
    ContainsSelf(Suffix(timeout));
    ContainsInfix(before, Suffix(timeout), "", Suffix(timeout));
    assert before + Suffix(timeout) + "" == Sub(BRACE_SEMI, content[q..e], SuffixFor(timeout));
  }

  /** For a text without the guard words, the result carries the marker
      exactly when some whole test matches `BLOCK`. */
  lemma AddTimeoutToTestMarks(content: string, timeout: int)
    requires !HasTimeout(content)
    ensures Search(BLOCK, content) <==> Contains(AddTimeoutToTest(content, timeout), MARKER)
    ensures Search(BLOCK, content) ==> HasTimeout(AddTimeoutToTest(content, timeout))
  {
    var r := AddTimeoutToTest(content, timeout);
    if Search(BLOCK, content) {
      AddTimeoutToTestSuffix(content, timeout);
      SuffixMarks(timeout);
      ContainsTrans(r, Suffix(timeout), MARKER);
      MarkerHasTimeout(r);
    } else {
      AddTimeoutToTestCases(content, timeout);
      if Contains(r, MARKER) {
        MarkerHasTimeout(content);
      }
    }
  }

  /** `add_timeout_to_test` is idempotent, whatever timeout the second call
      is given. */
  lemma AddTimeoutToTestIdempotent(content: string, timeout: int, timeout2: int)
    ensures AddTimeoutToTest(AddTimeoutToTest(content, timeout), timeout2) ==
              AddTimeoutToTest(content, timeout)
  {
    AddTimeoutToTestCases(content, timeout);
    AddTimeoutToTestCases(content, timeout2);
    if !HasTimeout(content) && Search(BLOCK, content) {
      AddTimeoutToTestMarks(content, timeout);
    }
  }

  // ---------------------------------------------------------------------------
  // process_file
  // ---------------------------------------------------------------------------

  /** The timeout `process_file` uses: 10 seconds for a network test and 5
      for any other. */
  function TimeoutOf(networkTest: bool): (t: int)
    ensures t == 10 <==> networkTest
    ensures t == 5 <==> !networkTest
  {
    if networkTest then NETWORK_TIMEOUT else DEFAULT_TIMEOUT
  }

  /** The look-ahead `while j < len(lines) and brace_count > 0`, entered at
      line `j` with `depth` open braces: the line it breaks at, the first one
      where the depth is back at zero and which holds `});`, if any. */
  function CloseFrom(lines: seq<string>, j: nat, depth: int): (r: Option<nat>)
    requires j <= |lines|
    ensures r.Some? ==> j <= r.value < |lines| && Contains(lines[r.value], CLOSE)
    decreases |lines| - j
  {
    if j < |lines| && depth > 0 then
      var d := depth + Delta(lines[j]);
      if d == 0 && Contains(lines[j], CLOSE) then Some(j) else CloseFrom(lines, j + 1, d)
    else None
  }

  /** One iteration of the `for` loop, on line `i` of the lines as they stand:
      a declaration line (by `isDecl`) sends the look-ahead, which starts at
      depth 1 on the next line, and the line it breaks at gets the timeout
      unless it has one. The loop's lemmas hold for any `isDecl`;
      `process_file` uses `DeclaresTest`. */
  function StepAt(lines: seq<string>, i: nat, timeout: int, isDecl: string -> bool): (r: LineScan)
    requires i < |lines|
    ensures |r.lines| == |lines|
  {
    if !isDecl(lines[i]) then LineScan(lines, false)
    else
      match CloseFrom(lines, i + 1, 1)
      case None => LineScan(lines, false)
      case Some(j) =>
        if HasTimeout(lines[j]) then LineScan(lines, false)
        else LineScan(lines[j := Inject(lines[j], timeout)], true)
  }

  /** The `for` loop from line `i` on; later iterations see the lines earlier
      ones rewrote. */
  function Forward(lines: seq<string>, i: nat, timeout: int, isDecl: string -> bool): (r: LineScan)
    requires i <= |lines|
    ensures |r.lines| == |lines|
    decreases |lines| - i
  {
    if i == |lines| then LineScan(lines, false)
    else
      var st := StepAt(lines, i, timeout, isDecl);
      var rest := Forward(st.lines, i + 1, timeout, isDecl);
      LineScan(rest.lines, st.modified || rest.modified)
  }

  /** `process_file(file_path, network_test)` on a file holding `content`. */
  function ProcessFileRewrite(content: string, networkTest: bool): Rewrite {
    if Contains(content, MARKER) || !Search(OPEN, content) then Rewrite(content, false)
    else
      var r := Forward(Split(content), 0, TimeoutOf(networkTest), DeclaresTest);
      if r.modified then Rewrite(Join(r.lines), true) else Rewrite(content, false)
  }

  /** The look-ahead from the declaration on line `i`. */
  method LookAheadClose(lines: seq<string>, i: nat) returns (r: Option<nat>)
    requires i < |lines|
    ensures r == CloseFrom(lines, i + 1, 1)
  {
    var j := i + 1;
    var depth := 1;
    while j < |lines| && depth > 0
      invariant i + 1 <= j <= |lines|
      invariant CloseFrom(lines, j, depth) == CloseFrom(lines, i + 1, 1)
      decreases |lines| - j
    {
      depth := depth + (CountChar(lines[j], '{') - CountChar(lines[j], '}'));
      if depth == 0 && Contains(lines[j], CLOSE) {
        return Some(j);
      }
      j := j + 1;
    }
    r := None;
  }

  /** The `for` loop of `process_file` over the split text. */
  method ForwardLines(lines0: seq<string>, timeout: int) returns (lines: seq<string>, modified: bool)
    ensures LineScan(lines, modified) == Forward(lines0, 0, timeout, DeclaresTest)
  {
    ghost var goal := Forward(lines0, 0, timeout, DeclaresTest);
    lines := lines0;
    modified := false;
    var i := 0;
    while i < |lines|
      invariant i <= |lines|
      invariant Forward(lines, i, timeout, DeclaresTest).lines == goal.lines
      invariant (modified || Forward(lines, i, timeout, DeclaresTest).modified) == goal.modified
      decreases |lines| - i
    {
      ghost var st := StepAt(lines, i, timeout, DeclaresTest);
      if Search(DECL, lines[i]) {
        var close := LookAheadClose(lines, i);
        if close.Some? && !HasTimeout(lines[close.value]) {
          lines := lines[close.value := Inject(lines[close.value], timeout)];
          modified := true;
        }
      }
      assert lines == st.lines;
      i := i + 1;
    }
  }

  /** `process_file`: the text the file holds afterwards and the return value. */
  method ProcessFile(content: string, networkTest: bool) returns (out: string, modified: bool)
    ensures Rewrite(out, modified) == ProcessFileRewrite(content, networkTest)
    ensures Contains(content, MARKER) ==> out == content && !modified
    ensures !Search(OPEN, content) ==> out == content && !modified
  {
    var timeout := TimeoutOf(networkTest);
    if Contains(content, MARKER) {
      return content, false;
    }
    if !Search(OPEN, content) {
      return content, false;
    }
    var lines;
    lines, modified := ForwardLines(Split(content), timeout);
    out := if modified then Join(lines) else content;
  }

  // ---------------------------------------------------------------------------
  // Lemmas: process_file
  // ---------------------------------------------------------------------------

  /** The depth stays positive after each of the lines `k..j` (exclusive of
      `j`), counting from `d` at line `k`, and is zero after line `j`. */
  ghost predicate ClosesAt(lines: seq<string>, k: nat, d: int, j: nat) {
    && k <= j < |lines| && d > 0
    && (forall n :: k < n <= j ==> d + Depth(lines, k, n) > 0)
    && d + Depth(lines, k, j + 1) == 0
  }

  /** The depths counted from line `k` are line `k`'s balance plus those
      counted from line `k + 1`. */
  lemma ClosesAtStep(lines: seq<string>, k: nat, d: int, j: nat)
    requires k < j < |lines| && d > 0
    ensures ClosesAt(lines, k, d, j) <==> ClosesAt(lines, k + 1, d + Delta(lines[k]), j)
  {
    var d2 := d + Delta(lines[k]);
    DepthStep(lines, k, k + 1);
    DepthStep(lines, k, j + 1);
    forall n | k < n <= j
      ensures d + Depth(lines, k, n) == d2 + Depth(lines, k + 1, n)
    {
      DepthStep(lines, k, n);
    }
    if ClosesAt(lines, k + 1, d2, j) {
      forall n | k < n <= j ensures d + Depth(lines, k, n) > 0 {
        if n > k + 1 {
          assert d2 + Depth(lines, k + 1, n) > 0;
        }
      }
    }
    if ClosesAt(lines, k, d, j) {
      assert d + Depth(lines, k, k + 1) > 0;
      var k1 := k + 1;
      forall n | k1 < n <= j ensures d2 + Depth(lines, k1, n) > 0 {
        assert d + Depth(lines, k, n) > 0;
      }
      assert d2 + Depth(lines, k + 1, j + 1) == 0;
    }
  }

  /** The look-ahead from line `k` at depth `d` breaks at line `j` exactly
      when the depth stays positive after each line before `j`, is zero after
      line `j`, and line `j` holds `});`. */
  lemma {:induction false} CloseFromExact(lines: seq<string>, k: nat, d: int, j: nat)
    requires k <= |lines|
    ensures CloseFrom(lines, k, d) == Some(j) <==> ClosesAt(lines, k, d, j) && Contains(lines[j], CLOSE)
    decreases |lines| - k
  {
    if k < |lines| && d > 0 {
      var d2 := d + Delta(lines[k]);
      DepthStep(lines, k, k + 1);
      assert d + Depth(lines, k, k + 1) == d2;
      if !(d2 == 0 && Contains(lines[k], CLOSE)) {
        CloseFromExact(lines, k + 1, d2, j);
        assert CloseFrom(lines, k, d) == CloseFrom(lines, k + 1, d2);
        if k < j < |lines| {
          ClosesAtStep(lines, k, d, j);
        }
      }
    }
  }

  /** The look-ahead from the declaration on line `i` starts at depth 1 on
      line `i + 1`, so it ignores the declaration line's own braces: it breaks
      at the first later line where the braces counted from line `i + 1` close
      the one it assumes open, if that line holds `});`. */
  lemma DeclarationClose(lines: seq<string>, i: nat, j: nat)
    requires i < |lines|
    ensures CloseFrom(lines, i + 1, 1) == Some(j) <==>
              i < j && ClosesAt(lines, i + 1, 1, j) && Contains(lines[j], CLOSE)
  {
    CloseFromExact(lines, i + 1, 1, j);
  }

  /** Every line of `cur` is the line of `orig` or, if that one was eligible,
      its injected form. */
  ghost predicate Descends(orig: seq<string>, cur: seq<string>, timeout: int) {
    && |cur| == |orig|
    && forall k :: 0 <= k < |orig| ==>
         cur[k] == orig[k] || (Eligible(orig[k]) && cur[k] == Inject(orig[k], timeout))
  }

  /** One step injects only into a line still as it was, and that line was
      eligible. */
  lemma StepDescends(orig: seq<string>, cur: seq<string>, i: nat, timeout: int, isDecl: string -> bool)
    requires Descends(orig, cur, timeout) && i < |cur|
    ensures Descends(orig, StepAt(cur, i, timeout, isDecl).lines, timeout)
  {
    var st := StepAt(cur, i, timeout, isDecl);
    if st.modified {
      var j := CloseFrom(cur, i + 1, 1).value;
      assert !HasTimeout(cur[j]) && Contains(cur[j], CLOSE);
      InjectMarks(orig[j], timeout);
      assert cur[j] == orig[j];
    }
  }

  /** A step that reports no modification changes nothing. */
  lemma {:induction false} ForwardUnmodified(cur: seq<string>, i: nat, timeout: int, isDecl: string -> bool)
    requires i <= |cur|
    ensures !Forward(cur, i, timeout, isDecl).modified ==> Forward(cur, i, timeout, isDecl).lines == cur
    decreases |cur| - i
  {
    if i < |cur| {
      var st := StepAt(cur, i, timeout, isDecl);
      ForwardUnmodified(st.lines, i + 1, timeout, isDecl);
    }
  }

  /** The loop from line `i` keeps `Descends`. */
  lemma {:induction false} ForwardDescends(orig: seq<string>, cur: seq<string>, i: nat, timeout: int, isDecl: string -> bool)
    requires Descends(orig, cur, timeout) && i <= |cur|
    ensures Descends(orig, Forward(cur, i, timeout, isDecl).lines, timeout)
    decreases |cur| - i
  {
    if i < |cur| {
      var st := StepAt(cur, i, timeout, isDecl);
      StepDescends(orig, cur, i, timeout, isDecl);
      ForwardDescends(orig, st.lines, i + 1, timeout, isDecl);
    }
  }

  /** A line that already has a timeout is never rewritten. */
  lemma {:induction false} ForwardKeepsTimeout(cur: seq<string>, i: nat, timeout: int, k: nat, isDecl: string -> bool)
    requires i <= |cur| && k < |cur| && HasTimeout(cur[k])
    ensures Forward(cur, i, timeout, isDecl).lines[k] == cur[k]
    decreases |cur| - i
  {
    if i < |cur| {
      var st := StepAt(cur, i, timeout, isDecl);
      ForwardKeepsTimeout(st.lines, i + 1, timeout, k, isDecl);
    }
  }

  /** A step that reports a modification gives line `k`, which had no
      timeout, one. */
  lemma StepModifies(cur: seq<string>, i: nat, timeout: int, isDecl: string -> bool) returns (k: nat)
    requires i < |cur| && StepAt(cur, i, timeout, isDecl).modified
    ensures k < |cur| && !HasTimeout(cur[k]) && HasTimeout(StepAt(cur, i, timeout, isDecl).lines[k])
  {
    k := CloseFrom(cur, i + 1, 1).value;
    InjectMarks(cur[k], timeout);
  }

  /** A loop that reports a modification leaves a line `k` that had no
      timeout with one. */
  lemma {:induction false} ForwardModified(cur: seq<string>, i: nat, timeout: int, isDecl: string -> bool) returns (k: nat)
    requires i <= |cur|
    ensures Forward(cur, i, timeout, isDecl).modified ==>
              && k < |cur| && !HasTimeout(cur[k])
              && HasTimeout(Forward(cur, i, timeout, isDecl).lines[k])
    decreases |cur| - i
  {
    k := 0;
    if i < |cur| {
      var st := StepAt(cur, i, timeout, isDecl);
      if st.modified {
        k := StepModifies(cur, i, timeout, isDecl);
        ForwardKeepsTimeout(st.lines, i + 1, timeout, k, isDecl);
      } else {
        k := ForwardModified(st.lines, i + 1, timeout, isDecl);
      }
    }
  }

  /** The loop reports a modification exactly when it changed some line. */
  lemma ForwardFlagExact(lines: seq<string>, timeout: int, isDecl: string -> bool)
    ensures Forward(lines, 0, timeout, isDecl).modified <==> Forward(lines, 0, timeout, isDecl).lines != lines
  {
    ForwardUnmodified(lines, 0, timeout, isDecl);
    var k := ForwardModified(lines, 0, timeout, isDecl);
  }

  /** `isDecl` gives a line and its injected form the same answer. */
  ghost predicate KeepsDecl(isDecl: string -> bool, timeout: int) {
    forall x :: isDecl(Inject(x, timeout)) == isDecl(x)
  }

  /** Line `a` declares a test and line `k` is where the braces counted from
      line `a + 1` first close the block it opened. */
  ghost predicate DeclCloses(lines: seq<string>, a: nat, k: nat, isDecl: string -> bool) {
    a < k < |lines| && isDecl(lines[a]) && ClosesAt(lines, a + 1, 1, k)
  }

  /** Line `k` closes some declaration above it. */
  ghost predicate ClosedBy(lines: seq<string>, k: nat, isDecl: string -> bool) {
    exists a: nat :: DeclCloses(lines, a, k, isDecl)
  }

  /** Two line lists of one length whose lines have the same brace balance. */
  ghost predicate SameDeltas(a: seq<string>, b: seq<string>) {
    |a| == |b| && forall m :: 0 <= m < |a| ==> Delta(a[m]) == Delta(b[m])
  }

  /** Lines with the same brace balances have the same depths. */
  lemma {:induction false} DepthSame(a: seq<string>, b: seq<string>, i: nat, j: nat)
    requires SameDeltas(a, b) && i <= j <= |a|
    ensures Depth(a, i, j) == Depth(b, i, j)
    decreases j - i
  {
    if i < j {
      DepthSame(a, b, i + 1, j);
    }
  }

  /** ... and so close their blocks on the same lines. */
  lemma ClosesAtSame(a: seq<string>, b: seq<string>, k: nat, d: int, j: nat)
    requires SameDeltas(a, b)
    ensures ClosesAt(a, k, d, j) <==> ClosesAt(b, k, d, j)
  {
    if k <= j < |a| {
      forall n | k <= n <= j + 1 ensures Depth(a, k, n) == Depth(b, k, n) {
        DepthSame(a, b, k, n);
      }
    }
  }

  /** Injecting keeps every line's brace balance. */
  lemma DescendsDeltas(orig: seq<string>, cur: seq<string>, timeout: int)
    requires Descends(orig, cur, timeout)
    ensures SameDeltas(orig, cur)
  {
    forall m | 0 <= m < |orig| ensures Delta(orig[m]) == Delta(cur[m]) {
      InjectCounts(orig[m], timeout);
    }
  }

  /** Every line of `cur` that differs from `orig` closes a declaration of
      `orig`. */
  ghost predicate OnlyCloses(orig: seq<string>, cur: seq<string>, isDecl: string -> bool) {
    |cur| == |orig| && forall k :: 0 <= k < |orig| && cur[k] != orig[k] ==> ClosedBy(orig, k, isDecl)
  }

  /** A line that declares a test in `cur` declared one in `orig`. */
  lemma DeclaredBefore(orig: seq<string>, cur: seq<string>, i: nat, timeout: int, isDecl: string -> bool)
    requires Descends(orig, cur, timeout) && KeepsDecl(isDecl, timeout) && i < |cur|
    ensures isDecl(cur[i]) == isDecl(orig[i])
  {
    assert isDecl(Inject(orig[i], timeout)) == isDecl(orig[i]);
  }

  /** The line a step rewrites closes the declaration on line `i`, in the
      original lines as well as in the current ones. */
  lemma StepOnlyCloses(orig: seq<string>, cur: seq<string>, i: nat, timeout: int, isDecl: string -> bool)
    requires Descends(orig, cur, timeout) && OnlyCloses(orig, cur, isDecl) && KeepsDecl(isDecl, timeout)
    requires i < |cur|
    ensures OnlyCloses(orig, StepAt(cur, i, timeout, isDecl).lines, isDecl)
  {
    var st := StepAt(cur, i, timeout, isDecl);
    if st.modified {
      var j := CloseFrom(cur, i + 1, 1).value;
      assert !HasTimeout(cur[j]) && Contains(cur[j], CLOSE);
      InjectMarks(orig[j], timeout);
      assert cur[j] == orig[j];
      DeclarationClose(cur, i, j);
      DescendsDeltas(orig, cur, timeout);
      ClosesAtSame(orig, cur, i + 1, 1, j);
      DeclaredBefore(orig, cur, i, timeout, isDecl);
      assert DeclCloses(orig, i, j, isDecl);
    }
  }

  /** The loop from line `i` keeps `OnlyCloses`. */
  lemma {:induction false} ForwardOnlyCloses(orig: seq<string>, cur: seq<string>, i: nat, timeout: int, isDecl: string -> bool)
    requires Descends(orig, cur, timeout) && OnlyCloses(orig, cur, isDecl) && KeepsDecl(isDecl, timeout)
    requires i <= |cur|
    ensures OnlyCloses(orig, Forward(cur, i, timeout, isDecl).lines, isDecl)
    decreases |cur| - i
  {
    if i < |cur| {
      var st := StepAt(cur, i, timeout, isDecl);
      StepDescends(orig, cur, i, timeout, isDecl);
      StepOnlyCloses(orig, cur, i, timeout, isDecl);
      ForwardOnlyCloses(orig, st.lines, i + 1, timeout, isDecl);
    }
  }

  /** Every eligible close of a declaration on a line before `i` has been
      rewritten in `cur`. */
  ghost predicate Served(orig: seq<string>, cur: seq<string>, i: nat, isDecl: string -> bool) {
    && |cur| == |orig|
    && forall a: nat, k: nat :: a < i && DeclCloses(orig, a, k, isDecl) && Eligible(orig[k]) ==> cur[k] != orig[k]
  }

  /** A step never touches a line that already has a timeout. */
  lemma StepKeepsTimeout(cur: seq<string>, i: nat, timeout: int, k: nat, isDecl: string -> bool)
    requires i < |cur| && k < |cur| && HasTimeout(cur[k])
    ensures StepAt(cur, i, timeout, isDecl).lines[k] == cur[k]
  {
  }

  /** The step at a declaration rewrites its close if that close is still
      eligible, and lines already rewritten stay so. */
  lemma StepServed(orig: seq<string>, cur: seq<string>, i: nat, timeout: int, isDecl: string -> bool)
    requires Descends(orig, cur, timeout) && Served(orig, cur, i, isDecl) && KeepsDecl(isDecl, timeout)
    requires i < |cur|
    ensures Served(orig, StepAt(cur, i, timeout, isDecl).lines, i + 1, isDecl)
  {
    var st := StepAt(cur, i, timeout, isDecl);
    DescendsDeltas(orig, cur, timeout);
    forall a: nat, k: nat | a < i + 1 && DeclCloses(orig, a, k, isDecl) && Eligible(orig[k])
      ensures st.lines[k] != orig[k]
    {
      InjectMarks(orig[k], timeout);
      if cur[k] != orig[k] {
        StepKeepsTimeout(cur, i, timeout, k, isDecl);
      } else {
        DeclaredBefore(orig, cur, i, timeout, isDecl);
        ClosesAtSame(orig, cur, a + 1, 1, k);
        DeclarationClose(cur, a, k);
      }
    }
  }

  /** The loop from line `i` keeps `Served` and ends with every declaration
      served. */
  lemma {:induction false} ForwardServed(orig: seq<string>, cur: seq<string>, i: nat, timeout: int, isDecl: string -> bool)
    requires Descends(orig, cur, timeout) && Served(orig, cur, i, isDecl) && KeepsDecl(isDecl, timeout)
    requires i <= |cur|
    ensures Served(orig, Forward(cur, i, timeout, isDecl).lines, |orig|, isDecl)
    decreases |cur| - i
  {
    if i < |cur| {
      var st := StepAt(cur, i, timeout, isDecl);
      StepDescends(orig, cur, i, timeout, isDecl);
      StepServed(orig, cur, i, timeout, isDecl);
      ForwardServed(orig, st.lines, i + 1, timeout, isDecl);
    }
  }

  /** The loop rewrites exactly the eligible lines that close a declaration
      above them, when the declaration test is blind to injection. */
  lemma ForwardCloses(orig: seq<string>, timeout: int, isDecl: string -> bool)
    requires KeepsDecl(isDecl, timeout)
    ensures var after := Forward(orig, 0, timeout, isDecl).lines;
            forall k :: 0 <= k < |orig| ==>
              (after[k] != orig[k] <==> Eligible(orig[k]) && ClosedBy(orig, k, isDecl))
  {
    var after := Forward(orig, 0, timeout, isDecl).lines;
    ForwardDescends(orig, orig, 0, timeout, isDecl);
    ForwardOnlyCloses(orig, orig, 0, timeout, isDecl);
    ForwardServed(orig, orig, 0, timeout, isDecl);
    forall k | 0 <= k < |orig| && Eligible(orig[k]) && ClosedBy(orig, k, isDecl)
      ensures after[k] != orig[k]
    {
      var a: nat :| DeclCloses(orig, a, k, isDecl);
    }
  }

  /** The lines after `process_file` are the lines before, each one either
      unchanged or, when it was eligible, rewritten by `Inject` with the
      file's timeout; so every line keeps its brace balance. The file counts
      as modified exactly when its text changed. Before the two guards pass
      nothing changes; past them, the lines rewritten are exactly the eligible
      ones that are the first line after a test declaration at which the
      braces counted from the line below it close the block it opened. */
  lemma ProcessFileLines(content: string, networkTest: bool)
    ensures var r := ProcessFileRewrite(content, networkTest);
            var before := Split(content);
            var after := Split(r.text);
            && |after| == |before|
            && (forall k :: 0 <= k < |before| ==>
                  after[k] == before[k]
                  || (Eligible(before[k]) && after[k] == Inject(before[k], TimeoutOf(networkTest))))
            && (forall k :: 0 <= k < |before| ==> Delta(after[k]) == Delta(before[k]))
            && (r.modified <==> r.text != content)
            && (Contains(content, MARKER) || !Search(OPEN, content) ==> r.text == content)
            && (!Contains(content, MARKER) && Search(OPEN, content) ==>
                  forall k :: 0 <= k < |before| ==>
                    (after[k] != before[k] <==> Eligible(before[k]) && ClosedBy(before, k, DeclaresTest)))
  {
    var timeout := TimeoutOf(networkTest);
    var before := Split(content);
    var r := ProcessFileRewrite(content, networkTest);
    var f := Forward(before, 0, timeout, DeclaresTest);
    forall x ensures DeclaresTest(Inject(x, timeout)) == DeclaresTest(x) {
      DeclaresInject(x, timeout);
    }
    ForwardCloses(before, timeout, DeclaresTest);
    ForwardDescends(before, before, 0, timeout, DeclaresTest);
    ForwardFlagExact(before, timeout, DeclaresTest);
    if r.modified {
      forall k | 0 <= k < |before| ensures '\n' !in f.lines[k] {
        InjectNoNewline(before[k], timeout);
      }
      SplitJoin(f.lines);
      assert Split(r.text) == f.lines;
    }
    forall k | 0 <= k < |before|
      ensures Delta(Split(r.text)[k]) == Delta(before[k])
    {
      InjectCounts(before[k], timeout);
    }
  }

  /** A file `process_file` modified holds the marker, so processing it again
      returns at the guard; a file it left alone is left alone again. So
      `process_file` is idempotent, whichever network flag the second run
      is given. */
  lemma ProcessFileIdempotent(content: string, networkTest: bool, networkTest2: bool)
    ensures var r := ProcessFileRewrite(content, networkTest);
            ProcessFileRewrite(r.text, networkTest2) == Rewrite(r.text, false)
    ensures ProcessFileRewrite(content, networkTest).modified ==>
              Contains(ProcessFileRewrite(content, networkTest).text, MARKER)
  {
    var r := ProcessFileRewrite(content, networkTest);
    if r.modified {
      var timeout := TimeoutOf(networkTest);
      var before := Split(content);
      ProcessFileLines(content, networkTest);
      var after := Split(r.text);
      JoinSplit(content);
      JoinSplit(r.text);
      assert after != before;
      var k :| 0 <= k < |before| && after[k] != before[k];
      InjectMarks(before[k], timeout);
      JoinSplit(r.text);
      JoinContains(after, k, MARKER);
    } else if !Contains(content, MARKER) && Search(OPEN, content) {
      ForwardFlagTimeoutFree(Split(content), TimeoutOf(networkTest), TimeoutOf(networkTest2));
    }
  }

  /** Whether the loop modifies anything does not depend on the timeout. */
  lemma ForwardFlagTimeoutFree(lines: seq<string>, t1: int, t2: int)
    ensures Forward(lines, 0, t1, DeclaresTest).modified == Forward(lines, 0, t2, DeclaresTest).modified
  {
    forall x ensures DeclaresTest(Inject(x, t1)) == DeclaresTest(x) && DeclaresTest(Inject(x, t2)) == DeclaresTest(x) {
      DeclaresInject(x, t1);
      DeclaresInject(x, t2);
    }
    var f1 := Forward(lines, 0, t1, DeclaresTest).lines;
    var f2 := Forward(lines, 0, t2, DeclaresTest).lines;
    ForwardCloses(lines, t1, DeclaresTest);
    ForwardCloses(lines, t2, DeclaresTest);
    ForwardFlagExact(lines, t1, DeclaresTest);
    ForwardFlagExact(lines, t2, DeclaresTest);
    if f1 != lines {
      var k :| 0 <= k < |lines| && f1[k] != lines[k];
      assert f2[k] != lines[k];
    }
    if f2 != lines {
      var k :| 0 <= k < |lines| && f2[k] != lines[k];
      assert f1[k] != lines[k];
    }
  }

  // ---------------------------------------------------------------------------
  // main
  // ---------------------------------------------------------------------------

  /** What `main` does with one file: `process_file` with the file's network
      classification. */
  function TestOutcome(f: SourceFile): Rewrite {
    ProcessFileRewrite(f.text, f.name in NETWORK_FILES)
  }

  /** One iteration of `main`'s loop. */
  method ProcessTest(f: SourceFile) returns (r: Rewrite)
    ensures r == TestOutcome(f)
  {
    var isNetwork := f.name in NETWORK_FILES;
    var out, changed := ProcessFile(f.text, isNetwork);
    r := Rewrite(out, changed);
  }

  /** `main` over the test files in sorted order: each file goes through
      `process_file`, as a network test exactly when its name is in the
      network set, and `modified_count` counts the files it reported as
      modified. */
  method ProcessTests(files: seq<SourceFile>) returns (results: seq<Rewrite>, modifiedCount: nat)
    ensures |results| == |files|
    ensures forall k :: 0 <= k < |files| ==> results[k] == TestOutcome(files[k])
    ensures modifiedCount == |CountedIndices(results, Reported)|
  {
    results := [];
    modifiedCount := 0;
    var i := 0;
    while i < |files|
      invariant 0 <= i <= |files| && |results| == i
      invariant forall k :: 0 <= k < i ==> results[k] == TestOutcome(files[k])
      invariant modifiedCount == |CountedIndices(results, Reported)|
    {
      var r := ProcessTest(files[i]);
      CountedIndicesAppend(results, r, Reported);
      results := results + [r];
      if r.modified {
        modifiedCount := modifiedCount + 1;
      }
      i := i + 1;
    }
  }
}
