/**
 The regular expressions the timeout tools use, and Python's `re.search` and
 `re.sub` over them:

   DECL        test\s*\([^)]+\)\s*async
   OPEN        test\s*\([^)]+\)\s*async\s*\{
   BLOCK       test\s*\([^)]+\)\s*async\s*\{[^}]*\}\s*;
   BRACE_SEMI  \}\s*;

 Each is a fixed sequence of parts: a literal, `\s*`, `[^c]+` or `[^c]*`.
 `Spans` says declaratively which stretches of a string a sequence of parts
 matches; `MatchParts` is the matcher, which lets every repetition run as far
 as it can and never backtracks. `MatchExact` proves the two agree whenever
 each repetition is followed by a literal whose first character the
 repetition cannot consume (`Greedy`), which holds for all four expressions:
 there the regex engine has no choice to make either.
 */
module Patterns {
  import opened Text

  datatype Option<T> = None | Some(value: T)

  /** One part of a regular expression. */
  datatype Part =
    | Lit(w: string)               // the text `w` itself
    | Spaces                       // `\s*`
    | Except(c: char, plus: bool)  // `[^c]+` when `plus`, else `[^c]*`

  /** Python's `\s` on `str` patterns: the characters for which `str.isspace()` holds. */
  predicate IsSpace(c: char) {
    || ('\t' <= c <= '\r')
    || ('\U{1C}' <= c <= ' ')
    || c == '\U{85}' || c == '\U{A0}' || c == '\U{1680}'
    || ('\U{2000}' <= c <= '\U{200A}')
    || c == '\U{2028}' || c == '\U{2029}' || c == '\U{202F}' || c == '\U{205F}' || c == '\U{3000}'
  }

  /** `\s*` from `i`: the end of the longest run of whitespace starting at `i`. */
  function SkipSpace(s: string, i: nat): (j: nat)
    requires i <= |s|
    ensures i <= j <= |s|
    ensures forall q :: i <= q < j ==> IsSpace(s[q])
    ensures j == |s| || !IsSpace(s[j])
    decreases |s| - i
  {
    if i == |s| || !IsSpace(s[i]) then i else SkipSpace(s, i + 1)
  }

  /** `[^c]*` from `i`: the first index at or after `i` holding `c`, or `|s|`. */
  function FindChar(s: string, i: nat, c: char): (j: nat)
    requires i <= |s|
    ensures i <= j <= |s|
    ensures forall q :: i <= q < j ==> s[q] != c
    ensures j == |s| || s[j] == c
    decreases |s| - i
  {
    if i == |s| || s[i] == c then i else FindChar(s, i + 1, c)
  }

  /** Matches one part at `i`, as far as it reaches; the end of the match. */
  function MatchPart(t: Part, s: string, i: nat): (r: Option<nat>)
    requires i <= |s|
    ensures r.Some? ==> i <= r.value <= |s|
  {
    match t
    case Lit(w) => if OccursAt(s, w, i) then Some(i + |w|) else None
    case Spaces => Some(SkipSpace(s, i))
    case Except(c, plus) =>
      var j := FindChar(s, i, c);
      if plus && j == i then None else Some(j)
  }

  /** Matches the parts one after the other from `i`; the end of the match. */
  function MatchParts(ps: seq<Part>, s: string, i: nat): (r: Option<nat>)
    requires i <= |s|
    ensures r.Some? ==> i <= r.value <= |s|
    ensures r.Some? && Anchored(ps) ==> i < r.value
    decreases |ps|
  {
    if |ps| == 0 then Some(i)
    else
      match MatchPart(ps[0], s, i)
      case None => None
      case Some(j) => MatchParts(ps[1..], s, j)
  }

  /** The expression starts with a non-empty literal, so it never matches the
      empty string. */
  predicate Anchored(ps: seq<Part>) {
    |ps| > 0 && ps[0].Lit? && |ps[0].w| > 0
  }

  // ---------------------------------------------------------------------------
  // The regular expressions stated declaratively
  // ---------------------------------------------------------------------------

  /** Part `t` matches exactly `s[i..j]`. */
  ghost predicate PartSpans(t: Part, s: string, i: nat, j: nat) {
    && i <= j <= |s|
    && match t
       case Lit(w) => s[i..j] == w
       case Spaces => forall q :: i <= q < j ==> IsSpace(s[q])
       case Except(c, plus) => (plus ==> i < j) && forall q :: i <= q < j ==> s[q] != c
  }

  /** The parts match exactly `s[i..j]`, for some way of cutting it. */
  ghost predicate Spans(ps: seq<Part>, s: string, i: nat, j: nat)
    decreases |ps|
  {
    if |ps| == 0 then i == j <= |s|
    else exists k: nat :: PartSpans(ps[0], s, i, k) && Spans(ps[1..], s, k, j)
  }

  /** Character `c` ends whatever part `t` consumes. */
  predicate Stops(t: Part, c: char) {
    match t
    case Lit(_) => true
    case Spaces => !IsSpace(c)
    case Except(d, _) => c == d
  }

  /** Every repetition is followed by a literal whose first character stops it. */
  predicate Greedy(ps: seq<Part>) {
    forall n :: 0 <= n < |ps| && !ps[n].Lit? ==>
      n + 1 < |ps| && ps[n + 1].Lit? && |ps[n + 1].w| > 0 && Stops(ps[n], ps[n + 1].w[0])
  }

  // ---------------------------------------------------------------------------
  // The four expressions
  // ---------------------------------------------------------------------------

  /** `test\s*\([^)]+\)\s*async`: a line that declares an async test. */
  const DECL: seq<Part> := [Lit("test"), Spaces, Lit("("), Except(')', true), Lit(")"), Spaces, Lit("async")]

  /** `test\s*\([^)]+\)\s*async\s*\{`: an async test declaration with its body's `{`. */
  const OPEN: seq<Part> := DECL + [Spaces, Lit("{")]

  /** `\}\s*;`: a closing brace followed by a semicolon. */
  const BRACE_SEMI: seq<Part> := [Lit("}"), Spaces, Lit(";")]

  /** `test\s*\([^)]+\)\s*async\s*\{[^}]*\}\s*;`: a whole test whose body holds no `}`. */
  const BLOCK: seq<Part> := OPEN + [Except('}', false)] + BRACE_SEMI

  /** `re.search(r"test\s*\([^)]+\)\s*async", line)`: the line declares an
      async test. */
  predicate DeclaresTest(line: string) {
    Search(DECL, line)
  }

  /** `re.search(r"test\s*\([^)]+\)\s*async\s*\{", line)`: the line opens an
      async test. */
  predicate OpensTest(line: string) {
    Search(OPEN, line)
  }

  // ---------------------------------------------------------------------------
  // re.search and re.sub
  // ---------------------------------------------------------------------------

  /** Python's `re.search(ps, s)` succeeds. */
  predicate Search(ps: seq<Part>, s: string) {
    SearchFrom(ps, s, 0)
  }

  /** The search tries each start position from `p` on. */
  predicate SearchFrom(ps: seq<Part>, s: string, p: nat)
    requires p <= |s|
    decreases |s| - p
  {
    MatchParts(ps, s, p).Some? || (p < |s| && SearchFrom(ps, s, p + 1))
  }

  /** The leftmost position at or after `p` where the expression matches. */
  function Leftmost(ps: seq<Part>, s: string, p: nat): (r: Option<nat>)
    requires p <= |s|
    ensures r.Some? ==> p <= r.value <= |s| && MatchParts(ps, s, r.value).Some?
    ensures forall q :: p <= q <= |s| && (r.None? || q < r.value) ==> MatchParts(ps, s, q).None?
    decreases |s| - p
  {
    if MatchParts(ps, s, p).Some? then Some(p)
    else if p == |s| then None
    else Leftmost(ps, s, p + 1)
  }

  /** Python's `re.sub(ps, repl, s)` from position `p` on: the leftmost match
      is replaced by `repl` of its text and the scan resumes where it ends;
      characters no match covers are copied. */
  function SubFrom(ps: seq<Part>, s: string, p: nat, repl: string -> string): string
    requires p <= |s| && Anchored(ps)
    decreases |s| - p
  {
    if p == |s| then ""
    else
      match MatchParts(ps, s, p)
      case Some(e) => repl(s[p..e]) + SubFrom(ps, s, e, repl)
      case None => [s[p]] + SubFrom(ps, s, p + 1, repl)
  }

  /** Python's `re.sub(ps, repl, s)`. */
  function Sub(ps: seq<Part>, s: string, repl: string -> string): string
    requires Anchored(ps)
  {
    SubFrom(ps, s, 0, repl)
  }

  // ---------------------------------------------------------------------------
  // Lemmas: the matcher against the declarative reading
  // ---------------------------------------------------------------------------

  /** A whitespace run that stops at a non-space is the one `SkipSpace` finds. */
  lemma SkipSpaceUnique(s: string, i: nat, j: nat)
    requires i <= j <= |s| && (forall q :: i <= q < j ==> IsSpace(s[q]))
    requires j == |s| || !IsSpace(s[j])
    ensures SkipSpace(s, i) == j
  {
  }

  /** A `c`-free stretch that stops at `c` is the one `FindChar` finds. */
  lemma FindCharUnique(s: string, i: nat, j: nat, c: char)
    requires i <= j < |s| && (forall q :: i <= q < j ==> s[q] != c) && s[j] == c
    ensures FindChar(s, i, c) == j
  {
  }

  lemma PartSound(t: Part, s: string, i: nat)
    requires i <= |s| && MatchPart(t, s, i).Some?
    ensures PartSpans(t, s, i, MatchPart(t, s, i).value)
  {
    if t.Lit? {
      OccursAtSlice(s, t.w, i);
    }
  }

  /** What a part matches, when the character after it stops it, is what the
      matcher finds. */
  lemma PartComplete(t: Part, s: string, i: nat, j: nat)
    requires PartSpans(t, s, i, j)
    requires t.Lit? || (j < |s| && Stops(t, s[j]))
    ensures MatchPart(t, s, i) == Some(j)
  {
    match t
    case Lit(w) => OccursAtSlice(s, w, i);
    case Spaces => SkipSpaceUnique(s, i, j);
    case Except(c, plus) => FindCharUnique(s, i, j, c);
  }

  /** Whatever the matcher finds, the parts match. */
  lemma {:induction false} MatchSound(ps: seq<Part>, s: string, i: nat)
    requires i <= |s| && MatchParts(ps, s, i).Some?
    ensures Spans(ps, s, i, MatchParts(ps, s, i).value)
    decreases |ps|
  {
    if |ps| > 0 {
      var j := MatchPart(ps[0], s, i).value;
      PartSound(ps[0], s, i);
      MatchSound(ps[1..], s, j);
    }
  }

  /** A match of parts that begin with a non-empty literal begins with that
      literal's first character. */
  lemma SpansStart(ps: seq<Part>, s: string, k: nat, j: nat)
    requires Anchored(ps) && Spans(ps, s, k, j)
    ensures k < |s| && s[k] == ps[0].w[0]
  {
    var m: nat :| PartSpans(ps[0], s, k, m) && Spans(ps[1..], s, m, j);
    assert s[k..m][0] == s[k];
  }

  /** With `Greedy` parts, whatever the parts match is what the matcher finds. */
  lemma {:induction false} MatchComplete(ps: seq<Part>, s: string, i: nat, j: nat)
    requires Greedy(ps) && Spans(ps, s, i, j)
    ensures MatchParts(ps, s, i) == Some(j)
    decreases |ps|
  {
    if |ps| > 0 {
      var k: nat :| PartSpans(ps[0], s, i, k) && Spans(ps[1..], s, k, j);
      assert Greedy(ps[1..]) by {
        forall n | 0 <= n < |ps[1..]| && !ps[1..][n].Lit?
          ensures n + 1 < |ps[1..]| && ps[1..][n + 1].Lit?
        {
          assert ps[1..][n] == ps[n + 1];
        }
      }
      if !ps[0].Lit? {
        SpansStart(ps[1..], s, k, j);
      }
      PartComplete(ps[0], s, i, k);
      MatchComplete(ps[1..], s, k, j);
    }
  }

  /** The matcher is exact for `Greedy` parts: it finds a match ending at `j`
      exactly when the parts match `s[i..j]`. */
  lemma MatchExact(ps: seq<Part>, s: string, i: nat, j: nat)
    requires Greedy(ps) && i <= |s|
    ensures MatchParts(ps, s, i) == Some(j) <==> Spans(ps, s, i, j)
  {
    if MatchParts(ps, s, i) == Some(j) {
      MatchSound(ps, s, i);
    }
    if Spans(ps, s, i, j) {
      MatchComplete(ps, s, i, j);
    }
  }

  /** Matching `a + b` is matching `a` and then `b` where `a` stopped. */
  lemma {:induction false} MatchConcat(a: seq<Part>, b: seq<Part>, s: string, i: nat)
    requires i <= |s|
    ensures MatchParts(a + b, s, i) ==
              if MatchParts(a, s, i).None? then None else MatchParts(b, s, MatchParts(a, s, i).value)
    decreases |a|
  {
    if |a| > 0 {
      assert (a + b)[0] == a[0];
      assert (a + b)[1..] == a[1..] + b;
      if MatchPart(a[0], s, i).Some? {
        MatchConcat(a[1..], b, s, MatchPart(a[0], s, i).value);
      }
    } else {
      assert a + b == b;
    }
  }

  /** Each of the four expressions is `Anchored`, and `Greedy`: the regex
      engine never has a choice to make on them. */
  lemma ExpressionsGreedy()
    ensures Greedy(DECL) && Greedy(OPEN) && Greedy(BLOCK) && Greedy(BRACE_SEMI)
    ensures Anchored(DECL) && Anchored(OPEN) && Anchored(BLOCK) && Anchored(BRACE_SEMI)
  {
    DeclGreedy();
    OpenGreedy();
    BlockGreedy();
  }

  lemma DeclGreedy()
    ensures Greedy(DECL) && Anchored(DECL)
  {
    assert "("[0] == '(' && ")"[0] == ')' && "async"[0] == 'a';
    assert !IsSpace('(') && !IsSpace('a');
  }

  lemma OpenGreedy()
    ensures Greedy(OPEN) && Anchored(OPEN)
  {
    DeclGreedy();
    assert "{"[0] == '{' && !IsSpace('{');
    forall n | 0 <= n < |OPEN| && !OPEN[n].Lit?
      ensures n + 1 < |OPEN| && OPEN[n + 1].Lit? && |OPEN[n + 1].w| > 0 && Stops(OPEN[n], OPEN[n + 1].w[0])
    {
      if n < |DECL| {
        assert OPEN[n] == DECL[n] && OPEN[n + 1] == DECL[n + 1];
      }
    }
  }

  lemma BlockGreedy()
    ensures Greedy(BLOCK) && Anchored(BLOCK) && Greedy(BRACE_SEMI) && Anchored(BRACE_SEMI)
  {
    OpenGreedy();
    assert "}"[0] == '}' && ";"[0] == ';' && !IsSpace(';');
    assert Greedy(BRACE_SEMI);
    var tail := [Except('}', false)] + BRACE_SEMI;
    assert BLOCK == OPEN + tail;
    forall n | 0 <= n < |BLOCK| && !BLOCK[n].Lit?
      ensures n + 1 < |BLOCK| && BLOCK[n + 1].Lit? && |BLOCK[n + 1].w| > 0 && Stops(BLOCK[n], BLOCK[n + 1].w[0])
    {
      if n < |OPEN| {
        assert BLOCK[n] == OPEN[n] && BLOCK[n + 1] == OPEN[n + 1];
      } else {
        assert BLOCK[n] == tail[n - |OPEN|];
      }
    }
  }

  // ---------------------------------------------------------------------------
  // Lemmas: re.search and re.sub
  // ---------------------------------------------------------------------------

  /** The search from `p` succeeds exactly when the expression matches at some
      start position at or after `p`, the leftmost of which `Leftmost` finds. */
  lemma {:induction false} SearchExists(ps: seq<Part>, s: string, p: nat)
    requires p <= |s|
    ensures SearchFrom(ps, s, p) <==> exists q: nat :: p <= q <= |s| && MatchParts(ps, s, q).Some?
    ensures SearchFrom(ps, s, p) <==> Leftmost(ps, s, p).Some?
    decreases |s| - p
  {
    if p < |s| {
      SearchExists(ps, s, p + 1);
      if MatchParts(ps, s, p).Some? {
        assert SearchFrom(ps, s, p) && Leftmost(ps, s, p) == Some(p);
        assert p <= p <= |s| && MatchParts(ps, s, p).Some?;
      } else if SearchFrom(ps, s, p + 1) {
        var q: nat :| p + 1 <= q <= |s| && MatchParts(ps, s, q).Some?;
        assert p <= q;
      } else {
        assert !SearchFrom(ps, s, p);
        forall q: nat | p <= q <= |s| ensures MatchParts(ps, s, q).None? {
          if q > p {
            assert p + 1 <= q;
          }
        }
      }
    } else if MatchParts(ps, s, p).Some? {
      assert SearchFrom(ps, s, p);
      assert p <= p <= |s| && MatchParts(ps, s, p).Some?;
    } else {
      forall q: nat | p <= q <= |s| ensures MatchParts(ps, s, q).None? {
        assert q == p;
      }
    }
  }

  lemma {:induction false} SpansBounds(ps: seq<Part>, s: string, i: nat, j: nat)
    requires Spans(ps, s, i, j)
    ensures i <= j <= |s|
    decreases |ps|
  {
    if |ps| > 0 {
      var k: nat :| PartSpans(ps[0], s, i, k) && Spans(ps[1..], s, k, j);
      SpansBounds(ps[1..], s, k, j);
    }
  }

  /** For `Greedy` expressions, `re.search` succeeds exactly when some stretch
      of the string matches the expression. */
  lemma SearchSpans(ps: seq<Part>, s: string)
    requires Greedy(ps)
    ensures Search(ps, s) <==> exists q: nat, e: nat :: Spans(ps, s, q, e)
  {
    SearchExists(ps, s, 0);
    if Search(ps, s) {
      var q: nat :| q <= |s| && MatchParts(ps, s, q).Some?;
      var e: nat := MatchParts(ps, s, q).value;
      MatchSound(ps, s, q);
      assert Spans(ps, s, q, e);
    }
    if exists q: nat, e: nat :: Spans(ps, s, q, e) {
      var q: nat, e: nat :| Spans(ps, s, q, e);
      SpanFound(ps, s, q, e);
    }
  }

  lemma SpanFound(ps: seq<Part>, s: string, q: nat, e: nat)
    requires Greedy(ps) && Spans(ps, s, q, e)
    ensures Search(ps, s)
  {
    SpansBounds(ps, s, q, e);
    MatchComplete(ps, s, q, e);
    SearchExists(ps, s, 0);
  }

  /** The substitution copies every character before the first match. */
  lemma {:induction false} SubCopies(ps: seq<Part>, s: string, p: nat, q: nat, repl: string -> string)
    requires Anchored(ps) && p <= q <= |s|
    requires forall r :: p <= r < q ==> MatchParts(ps, s, r).None?
    ensures SubFrom(ps, s, p, repl) == s[p..q] + SubFrom(ps, s, q, repl)
    decreases q - p
  {
    if p < q {
      SubCopiesStep(ps, s, p, repl);
      SubCopies(ps, s, p + 1, q, repl);
      assert s[p..q] == [s[p]] + s[p + 1..q];
      AppendAssoc([s[p]], s[p + 1..q], SubFrom(ps, s, q, repl));
    }
  }

  /** Where nothing matches, the substitution copies one character. */
  lemma SubCopiesStep(ps: seq<Part>, s: string, p: nat, repl: string -> string)
    requires Anchored(ps) && p < |s| && MatchParts(ps, s, p).None?
    ensures SubFrom(ps, s, p, repl) == [s[p]] + SubFrom(ps, s, p + 1, repl)
  {
  }

  /** Up to the leftmost match the text is copied, the match is replaced, and
      the substitution goes on after it. */
  lemma SubLeftmost(ps: seq<Part>, s: string, p: nat, repl: string -> string)
    requires Anchored(ps) && p <= |s| && Leftmost(ps, s, p).Some?
    ensures var q := Leftmost(ps, s, p).value;
            var e := MatchParts(ps, s, q).value;
            SubFrom(ps, s, p, repl) == s[p..q] + repl(s[q..e]) + SubFrom(ps, s, e, repl)
  {
    var q := Leftmost(ps, s, p).value;
    SubCopies(ps, s, p, q, repl);
  }

  /** With no match from `p` on, the rest of the text is copied as it is. */
  lemma SubNoMatch(ps: seq<Part>, s: string, p: nat, repl: string -> string)
    requires Anchored(ps) && p <= |s| && Leftmost(ps, s, p).None?
    ensures SubFrom(ps, s, p, repl) == s[p..]
  {
    SubCopies(ps, s, p, |s|, repl);
  }

  /** Where the expression matches at `p`, the substitution replaces that match. */
  lemma SubMatchStep(ps: seq<Part>, s: string, p: nat, e: nat, repl: string -> string)
    requires Anchored(ps) && p < |s| && MatchParts(ps, s, p) == Some(e)
    ensures SubFrom(ps, s, p, repl) == repl(s[p..e]) + SubFrom(ps, s, e, repl)
  {
  }

  /** The expression matches at each position from `p` to `c` in `s` as in
      `pre`, never past `c`. */
  ghost predicate AgreeBefore(ps: seq<Part>, s: string, pre: string, p: nat, c: nat) {
    && p <= c <= |pre| <= |s|
    && forall r :: p <= r < c ==>
         MatchParts(ps, s, r) == MatchParts(ps, pre, r)
         && (MatchParts(ps, s, r).Some? ==> MatchParts(ps, s, r).value <= c)
  }

  /** The expression matches at `c` up to the end of `s`. */
  predicate EndsWithMatch(ps: seq<Part>, s: string, c: nat) {
    Anchored(ps) && c < |s| && MatchParts(ps, s, c) == Some(|s|)
  }

  /** When the expression matches at `c` up to the end of `s`, and before `c`
      it matches in `s` exactly as in `s[..c]` and never past `c`, the
      substitution from `p` is the substitution of `s[..c]` followed by the
      replacement of that last match. */
  lemma {:induction false} SubBeforeLast(ps: seq<Part>, s: string, c: nat, p: nat, repl: string -> string)
    requires EndsWithMatch(ps, s, c) && AgreeBefore(ps, s, s[..c], p, c)
    ensures SubFrom(ps, s, p, repl) == SubFrom(ps, s[..c], p, repl) + repl(s[c..])
    decreases c - p
  {
    if p == c {
      SubAtLast(ps, s, c, repl);
    } else {
      var next, piece := SubStepAgree(ps, s, c, p, repl);
      SubBeforeLast(ps, s, c, next, repl);
      AppendAssoc(piece, SubFrom(ps, s[..c], next, repl), repl(s[c..]));
    }
  }

  /** The last match makes the whole rest of the substitution. */
  lemma SubAtLast(ps: seq<Part>, s: string, c: nat, repl: string -> string)
    requires EndsWithMatch(ps, s, c)
    ensures SubFrom(ps, s, c, repl) == SubFrom(ps, s[..c], c, repl) + repl(s[c..])
  {
    SubMatchStep(ps, s, c, |s|, repl);
    assert s[c..|s|] == s[c..];
  }

  /** One step of both substitutions where they agree: the same text, then
      the same next position. */
  lemma SubStepAgree(ps: seq<Part>, s: string, c: nat, p: nat, repl: string -> string)
    returns (next: nat, piece: string)
    requires EndsWithMatch(ps, s, c) && p < c && AgreeBefore(ps, s, s[..c], p, c)
    ensures p < next <= c && AgreeBefore(ps, s, s[..c], next, c)
    ensures SubFrom(ps, s, p, repl) == piece + SubFrom(ps, s, next, repl)
    ensures SubFrom(ps, s[..c], p, repl) == piece + SubFrom(ps, s[..c], next, repl)
  {
    var pre := s[..c];
    var m := MatchParts(ps, s, p);
    assert MatchParts(ps, pre, p) == m;
    if m.Some? {
      next := m.value;
      piece := repl(s[p..next]);
      SubMatchBoth(ps, s, pre, p, next, repl);
    } else {
      next := p + 1;
      piece := [s[p]];
      SubCopyBoth(ps, s, pre, p, repl);
    }
  }

  /** A match at `p` that `s` and its prefix `pre` share is replaced in both. */
  lemma SubMatchBoth(ps: seq<Part>, s: string, pre: string, p: nat, e: nat, repl: string -> string)
    requires Anchored(ps) && p < e <= |pre| <= |s| && pre == s[..|pre|]
    requires MatchParts(ps, s, p) == Some(e) && MatchParts(ps, pre, p) == Some(e)
    ensures SubFrom(ps, s, p, repl) == repl(s[p..e]) + SubFrom(ps, s, e, repl)
    ensures SubFrom(ps, pre, p, repl) == repl(s[p..e]) + SubFrom(ps, pre, e, repl)
  {
    SubMatchStep(ps, s, p, e, repl);
    SubMatchStep(ps, pre, p, e, repl);
    SliceOfPrefix(s, pre, p, e);
  }

  /** A slice of a prefix is the slice of the whole text. */
  lemma SliceOfPrefix(s: string, pre: string, p: nat, e: nat)
    requires p <= e <= |pre| <= |s| && pre == s[..|pre|]
    ensures pre[p..e] == s[p..e]
  {
  }

  /** Where neither `s` nor its prefix `pre` matches at `p`, both copy `s[p]`. */
  lemma SubCopyBoth(ps: seq<Part>, s: string, pre: string, p: nat, repl: string -> string)
    requires Anchored(ps) && p < |pre| <= |s| && pre == s[..|pre|]
    requires MatchParts(ps, s, p).None? && MatchParts(ps, pre, p).None?
    ensures SubFrom(ps, s, p, repl) == [s[p]] + SubFrom(ps, s, p + 1, repl)
    ensures SubFrom(ps, pre, p, repl) == [s[p]] + SubFrom(ps, pre, p + 1, repl)
  {
    SubCopiesStep(ps, s, p, repl);
    SubCopiesStep(ps, pre, p, repl);
    assert pre[p] == s[p];
  }

  /** Whatever the leftmost match is replaced by ends up in the result. */
  lemma SubLeftmostContains(ps: seq<Part>, s: string, repl: string -> string, w: string)
    requires Anchored(ps) && Leftmost(ps, s, 0).Some?
    requires var q := Leftmost(ps, s, 0).value;
             Contains(repl(s[q..MatchParts(ps, s, q).value]), w)
    ensures Contains(Sub(ps, s, repl), w)
  {
    var q := Leftmost(ps, s, 0).value;
    var e := MatchParts(ps, s, q).value;
    SubLeftmost(ps, s, 0, repl);
    ContainsInfix(s[0..q], repl(s[q..e]), SubFrom(ps, s, e, repl), w);
  }

  /** A failed search leaves the text unchanged. */
  lemma SubUnchanged(ps: seq<Part>, s: string, repl: string -> string)
    requires Anchored(ps) && !Search(ps, s)
    ensures Sub(ps, s, repl) == s
  {
    SearchExists(ps, s, 0);
    SubNoMatch(ps, s, 0, repl);
  }

  // ---------------------------------------------------------------------------
  // Lemmas about the four expressions
  // ---------------------------------------------------------------------------

  /** A text matching `OPEN` somewhere also matches `DECL` there. */
  lemma OpenImpliesDecl(s: string)
    requires Search(OPEN, s)
    ensures Search(DECL, s)
  {
    SearchExists(OPEN, s, 0);
    var p: nat :| p <= |s| && MatchParts(OPEN, s, p).Some?;
    MatchConcat(DECL, [Spaces, Lit("{")], s, p);
    SearchExists(DECL, s, 0);
  }

  /** `BLOCK` matches at `p` exactly when `OPEN` does, and `\}\s*;` matches at
      the first `}` after it; the `BLOCK` match ends where that one does. So
      `[^}]*` makes the first `}` after the `{` the one that must be followed
      by whitespace and `;`. */
  lemma BlockClosing(s: string, p: nat)
    requires p <= |s|
    ensures MatchParts(BLOCK, s, p) ==
              match MatchParts(OPEN, s, p)
              case None => None
              case Some(o) =>
                var c := FindChar(s, o, '}');
                if c < |s| then MatchParts(BRACE_SEMI, s, c) else None
  {
    var tail := [Except('}', false)];
    MatchConcat(OPEN + tail, BRACE_SEMI, s, p);
    MatchConcat(OPEN, tail, s, p);
    if MatchParts(OPEN, s, p).Some? {
      var o := MatchParts(OPEN, s, p).value;
      var c := FindChar(s, o, '}');
      assert MatchParts(tail, s, o) == Some(c);
      if c == |s| {
        assert !OccursAt(s, "}", c);
      }
    }
  }

  /** How the matcher runs `\}\s*;` at `q`. */
  lemma BraceSemiAt(s: string, q: nat)
    requires q <= |s|
    ensures MatchParts(BRACE_SEMI, s, q) ==
              if q < |s| && s[q] == '}' then
                var k := SkipSpace(s, q + 1);
                if k < |s| && s[k] == ';' then Some(k + 1) else None
              else None
  {
    var rest1 := [Spaces, Lit(";")];
    var rest2 := [Lit(";")];
    assert BRACE_SEMI[1..] == rest1 && rest1[1..] == rest2 && rest2[1..] == [];
    assert "}"[1..] == [] && ";"[1..] == [];
    if OccursAt(s, "}", q) {
      var k := SkipSpace(s, q + 1);
      assert MatchParts(rest1, s, q + 1) == MatchParts(rest2, s, k);
    }
  }

  /** `\}\s*;` matches at `q`, ending at `e`, exactly when `s[q]` is `}`,
      `s[e - 1]` is `;` and only whitespace lies between them. */
  lemma BraceSemiExact(s: string, q: nat, e: nat)
    requires q <= |s|
    ensures MatchParts(BRACE_SEMI, s, q) == Some(e) <==> BraceSemiShape(s, q, e)
  {
    if MatchParts(BRACE_SEMI, s, q) == Some(e) {
      BraceSemiElim(s, q, e);
    }
    if BraceSemiShape(s, q, e) {
      BraceSemiIntro(s, q, e);
    }
  }

  /** `s[q..e]` is a `}`, then whitespace, then a `;`. */
  predicate BraceSemiShape(s: string, q: nat, e: nat) {
    && q + 2 <= e <= |s| && s[q] == '}' && s[e - 1] == ';'
    && forall r :: q < r < e - 1 ==> IsSpace(s[r])
  }

  lemma BraceSemiElim(s: string, q: nat, e: nat)
    requires q <= |s| && MatchParts(BRACE_SEMI, s, q) == Some(e)
    ensures BraceSemiShape(s, q, e)
  {
    BraceSemiAt(s, q);
  }

  lemma BraceSemiIntro(s: string, q: nat, e: nat)
    requires BraceSemiShape(s, q, e)
    ensures MatchParts(BRACE_SEMI, s, q) == Some(e)
  {
    BraceSemiAt(s, q);
    SkipSpaceUnique(s, q + 1, e - 1);
  }

  /** `BLOCK` cannot match a test whose first `}` after the opening `{` is
      followed by `)`, which is how `test(..., () async { ... });` closes. */
  lemma BlockMissesUsualClosing(s: string, p: nat)
    requires p <= |s| && MatchParts(OPEN, s, p).Some?
    requires var c := FindChar(s, MatchParts(OPEN, s, p).value, '}');
             c + 1 < |s| && s[c + 1] == ')'
    ensures MatchParts(BLOCK, s, p) == None
  {
    BlockClosing(s, p);
    BraceSemiNotParen(s, FindChar(s, MatchParts(OPEN, s, p).value, '}'));
  }

  /** `\}\s*;` does not match at a `}` followed by `)`. */
  lemma BraceSemiNotParen(s: string, c: nat)
    requires c + 1 < |s| && s[c + 1] == ')'
    ensures MatchParts(BRACE_SEMI, s, c) == None
  {
    BraceSemiAt(s, c);
    assert !IsSpace(')');
    assert SkipSpace(s, c + 1) == c + 1;
  }
}
