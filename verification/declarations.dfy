/**
 Injecting the timeout never changes whether a line declares an async test:
 `re.search(r"test\s*\([^)]+\)\s*async", line)` gives the same answer before
 and after `line.replace('});', suffix)`.

 The reason is local. In a match of that expression the only `)` is followed
 by whitespace or the `a` of `async`, and the match ends in `c`; neither
 `});` nor the suffix `}, timeout: Timeout(Duration(seconds: N)));` can
 overlap such a stretch, so every match lies in text the replacement copies.
 */
module Declarations {
  import opened Text
  import opened Patterns
  import opened Injection

  /** A character that may follow the `)` of a declaration: `\s` or a letter
      of `async`. */
  predicate TailChar(c: char) {
    IsSpace(c) || c == 'a' || c == 's' || c == 'y' || c == 'n' || c == 'c'
  }

  /** What every non-empty suffix of a declaration match looks like: it ends
      in `c`, each `)` in it is followed by whitespace or `a` and then only by
      characters of the `\s*async` tail, and without a `)` it is all tail. */
  predicate DeclTail(w: string) {
    && |w| >= 1 && w[|w| - 1] == 'c'
    && (forall r :: 0 <= r < |w| && w[r] == ')' ==> r + 1 < |w| && (IsSpace(w[r + 1]) || w[r + 1] == 'a'))
    && (forall r, m :: 0 <= r < m < |w| && w[r] == ')' ==> TailChar(w[m]))
    && (')' in w || forall m :: 0 <= m < |w| ==> TailChar(w[m]))
  }

  /** The text the suffix starts with, up to its first `)`. */
  function SuffixHead(timeout: int): string {
    "}, " + MARKER + " " + DecimalString(timeout)
  }

  // ---------------------------------------------------------------------------
  // Lemmas
  // ---------------------------------------------------------------------------

  /** `DeclaresTest` is unchanged by injecting the timeout, for every line and
      every timeout. */
  lemma DeclaresInject(x: string, timeout: int)
    ensures DeclaresTest(Inject(x, timeout)) <==> DeclaresTest(x)
  {
    var y := Inject(x, timeout);
    SuffixBlocker(timeout);
    if DeclaresTest(x) {
      var v := DeclWitness(x);
      ContainsAgree(x, 0, Suffix(timeout), |SuffixHead(timeout)|, v);
      DeclFromWitness(y, v);
    }
    if DeclaresTest(y) {
      var v := DeclWitness(y);
      ContainsAgree(x, 0, Suffix(timeout), |SuffixHead(timeout)|, v);
      DeclFromWitness(x, v);
    }
  }

  /** A line that declares a test contains a whole declaration match `v`. */
  lemma DeclWitness(s: string) returns (v: string)
    requires DeclaresTest(s)
    ensures Contains(s, v) && Spans(DECL, v, 0, |v|) && v[0] == 't' && DeclTail(v)
  {
    DeclGreedy();
    SearchSpans(DECL, s);
    var q: nat, e: nat :| Spans(DECL, s, q, e);
    v := SpanWitness(DECL, s, q, e);
    DeclSpanShape(s, q, e);
  }

  /** The text a match spans is contained in the string and matched whole. */
  lemma SpanWitness(ps: seq<Part>, s: string, q: nat, e: nat) returns (v: string)
    requires Spans(ps, s, q, e)
    ensures q <= e <= |s| && v == s[q..e]
    ensures Contains(s, v) && Spans(ps, v, 0, |v|)
  {
    SpansBounds(ps, s, q, e);
    v := s[q..e];
    OccursAtSlice(s, v, q);
    ContainsFromExists(s, v, 0);
    assert v[0..|v|] == v;
    SpansLocal(ps, s, q, e, v, 0);
  }

  /** A line containing a whole declaration match declares a test. */
  lemma DeclFromWitness(s: string, v: string)
    requires Contains(s, v) && Spans(DECL, v, 0, |v|)
    ensures DeclaresTest(s)
  {
    DeclGreedy();
    ContainsFromExists(s, v, 0);
    var p: nat :| p <= |s| && OccursAt(s, v, p);
    OccursAtSlice(s, v, p);
    assert v[0..|v|] == v;
    SpansLocal(DECL, v, 0, |v|, s, p);
    SpanFound(DECL, s, p, p + |v|);
  }

  /** A stretch that `test\s*\([^)]+\)\s*async` matches starts with `t` and
      has the shape of `DeclTail`. */
  lemma DeclSpanShape(s: string, q: nat, e: nat)
    requires Spans(DECL, s, q, e)
    ensures q < e <= |s| && s[q] == 't' && DeclTail(s[q..e])
  {
    var k1, k2, k3, k4, k6 := DeclParts(s, q, e);
    DeclTailOf(s, q, k1, k2, k3, k4, k6, e);
  }

  /** The first part of a match and the rest. */
  lemma SpansHead(ps: seq<Part>, s: string, i: nat, j: nat) returns (k: nat)
    requires |ps| > 0 && Spans(ps, s, i, j)
    ensures i <= k <= j <= |s| && PartSpans(ps[0], s, i, k) && Spans(ps[1..], s, k, j)
  {
    k :| PartSpans(ps[0], s, i, k) && Spans(ps[1..], s, k, j);
    SpansBounds(ps[1..], s, k, j);
  }

  /** The parts of a declaration match after `(`: `[^)]+`, `)`, `\s*`, `async`. */
  const DECL_REST: seq<Part> := [Except(')', true), Lit(")"), Spaces, Lit("async")]

  /** The cut points of a declaration match: `test`, `\s*`, `(`, `[^)]+`, `)`,
      `\s*`, `async`. */
  lemma DeclParts(s: string, q: nat, e: nat) returns (k1: nat, k2: nat, k3: nat, k4: nat, k6: nat)
    requires Spans(DECL, s, q, e)
    ensures q + 4 == k1 <= k2 && k2 + 1 == k3 < k4 && k4 + 1 <= k6 && k6 + 5 == e <= |s|
    ensures s[q..k1] == "test" && s[k2] == '(' && s[k4] == ')' && s[k6..e] == "async"
    ensures forall m :: k1 <= m < k2 ==> IsSpace(s[m])
    ensures forall m :: k3 <= m < k4 ==> s[m] != ')'
    ensures forall m :: k4 + 1 <= m < k6 ==> IsSpace(s[m])
  {
    k1, k2, k3 := DeclFront(s, q, e);
    k4, k6 := DeclBack(s, k3, e);
  }

  /** `test`, `\s*` and `(` open a declaration match. */
  lemma DeclFront(s: string, q: nat, e: nat) returns (k1: nat, k2: nat, k3: nat)
    requires Spans(DECL, s, q, e)
    ensures q + 4 == k1 <= k2 && k2 + 1 == k3 <= e <= |s|
    ensures s[q..k1] == "test" && s[k2] == '('
    ensures forall m :: k1 <= m < k2 ==> IsSpace(s[m])
    ensures Spans(DECL_REST, s, k3, e)
  {
    var d1: seq<Part> := [Spaces, Lit("(")] + DECL_REST;
    assert DECL == [Lit("test")] + d1;
    k1 := SpansHead(DECL, s, q, e);
    k2 := SpansHead(d1, s, k1, e);
    k3 := SpansHead(d1[1..], s, k2, e);
    assert d1[1..][1..] == DECL_REST;
    assert s[k2] == s[k2..k3][0];
  }

  /** `[^)]+`, `)`, `\s*` and `async` close it. */
  lemma DeclBack(s: string, k3: nat, e: nat) returns (k4: nat, k6: nat)
    requires Spans(DECL_REST, s, k3, e)
    ensures k3 < k4 && k4 + 1 <= k6 && k6 + 5 == e <= |s|
    ensures s[k4] == ')' && s[k6..e] == "async"
    ensures forall m :: k3 <= m < k4 ==> s[m] != ')'
    ensures forall m :: k4 + 1 <= m < k6 ==> IsSpace(s[m])
  {
    var d3 := DECL_REST;
    k4 := SpansHead(d3, s, k3, e);
    var k5 := SpansHead(d3[1..], s, k4, e);
    var d5: seq<Part> := [Spaces, Lit("async")];
    assert d3[2..] == d5;
    k6 := SpansHead(d5, s, k5, e);
    var k7 := SpansHead(d5[1..], s, k6, e);
    assert d5[2..] == [];
    assert s[k4] == s[k4..k5][0];
  }

  /** The index facts of a declaration match give `DeclTail`. */
  lemma DeclTailOf(s: string, q: nat, k1: nat, k2: nat, k3: nat, k4: nat, k6: nat, e: nat)
    requires q + 4 == k1 <= k2 && k2 + 1 == k3 < k4 && k4 + 1 <= k6 && k6 + 5 == e <= |s|
    requires s[q..k1] == "test" && s[k2] == '(' && s[k4] == ')' && s[k6..e] == "async"
    requires forall m :: k1 <= m < k2 ==> IsSpace(s[m])
    requires forall m :: k3 <= m < k4 ==> s[m] != ')'
    requires forall m :: k4 + 1 <= m < k6 ==> IsSpace(s[m])
    ensures s[q] == 't' && DeclTail(s[q..e])
  {
    var v := s[q..e];
    assert s[q] == s[q..k1][0];
    forall n | 0 <= n < 5 ensures s[k6 + n] == "async"[n] {
      assert s[k6 + n] == s[k6..e][n];
    }
    assert !IsSpace(')');
    forall m | q <= m < k4 ensures s[m] != ')' {
      if m < k1 {
        assert s[m] == s[q..k1][m - q];
      }
    }
    forall m | k4 < m < e ensures s[m] != ')' && TailChar(s[m]) {
      if m >= k6 {
        assert s[m] == "async"[m - k6];
      }
    }
    forall r | 0 <= r < |v| && v[r] == ')'
      ensures r + 1 < |v| && (IsSpace(v[r + 1]) || v[r + 1] == 'a')
    {
      assert s[q + r] == ')';
      assert q + r == k4;
      if k4 + 1 == k6 {
        assert v[r + 1] == s[k6];
      }
    }
    assert v[k4 - q] == ')';
    assert v[|v| - 1] == s[e - 1] == 'c';
  }

  /** A match found at one place is found wherever the same text stands. */
  lemma {:induction false} SpansLocal(ps: seq<Part>, s: string, q: nat, e: nat, t: string, p: nat)
    requires Spans(ps, s, q, e)
    requires q <= e <= |s| && p + (e - q) <= |t| && t[p..p + (e - q)] == s[q..e]
    ensures Spans(ps, t, p, p + (e - q))
    decreases |ps|
  {
    if |ps| > 0 {
      var k: nat :| PartSpans(ps[0], s, q, k) && Spans(ps[1..], s, k, e);
      SpansBounds(ps[1..], s, k, e);
      var pk := p + (k - q);
      forall m | q <= m < e ensures t[p + (m - q)] == s[m] {
        assert t[p + (m - q)] == t[p..p + (e - q)][m - q];
      }
      assert t[pk..pk + (e - k)] == s[k..e];
      SpansLocal(ps[1..], s, k, e, t, pk);
      assert t[p..pk] == s[q..k];
      forall m | p <= m < pk ensures t[m] == s[q + (m - p)] {
      }
      assert PartSpans(ps[0], t, p, pk);
    }
  }

  /** Dropping the first character of a `DeclTail` leaves one. */
  lemma DeclTailSuffix(w: string)
    requires DeclTail(w) && |w| >= 2
    ensures DeclTail(w[1..])
  {
    var u := w[1..];
    if ')' in w && ')' !in u {
      assert w[0] == ')';
      forall m | 0 <= m < |u| ensures TailChar(u[m]) {
        assert u[m] == w[m + 1];
      }
    }
  }

  /** What the replacement text must look like for no declaration match to
      start in it: it opens with `}`, has no `)` before position `h`, and from
      `h` on holds only `)` and `;`, starting with `))`. */
  predicate Blocker(rep: string, h: nat) {
    && 0 < h && h + 2 <= |rep| && rep[0] == '}'
    && (forall m :: 0 <= m < h ==> rep[m] != ')')
    && rep[h] == ')' && rep[h + 1] == ')'
    && (forall m :: h <= m < |rep| ==> rep[m] == ')' || rep[m] == ';')
  }

  /** The suffix has the blocking shape, with its first `)` after its head. */
  lemma SuffixBlocker(timeout: int)
    ensures Blocker(Suffix(timeout), |SuffixHead(timeout)|)
  {
    var head := SuffixHead(timeout);
    var sfx := Suffix(timeout);
    assert sfx == head + ")));";
    assert ')' !in TIMEOUT_ARG && ')' !in TIMEOUT_CALL && ')' !in "Duration(seconds:";
    assert ')' !in head;
    forall m | |head| <= m < |sfx| ensures sfx[m] == ')' || sfx[m] == ';' {
      assert sfx[m] == ")));"[m - |head|];
    }
  }

  /** A string is not a prefix of `z` once it differs from `z` at `m`. */
  lemma NotPrefixAt(w: string, z: string, m: nat)
    requires m < |w| && (m >= |z| || w[m] != z[m])
    ensures !(w <= z)
  {
  }

  /** No `DeclTail` begins at a `});`. */
  lemma CloseBlocks(w: string, t: string)
    requires DeclTail(w)
    ensures !(w <= CLOSE + t)
  {
    var z := CLOSE + t;
    assert z[0] == '}' && z[1] == ')' && z[2] == ';';
    if |w| == 1 || w[0] != '}' {
      NotPrefixAt(w, z, 0);
    } else if w[1] != ')' {
      NotPrefixAt(w, z, 1);
    } else {
      NotPrefixAt(w, z, 2);
    }
  }

  /** No `DeclTail` begins at the start of a blocking text, and no declaration
      match begins anywhere inside it. */
  lemma SuffixBlocks(rep: string, h: nat, p: nat, u: string, w: string)
    requires Blocker(rep, h) && p < |rep| && DeclTail(w) && (p == 0 || w[0] == 't')
    ensures !(w <= rep[p..] + u)
  {
    var z := rep[p..] + u;
    assert z[0] == rep[p];
    if p >= h || w[0] != rep[p] {
      NotPrefixAt(w, z, 0);
    } else {
      assert !TailChar(w[0]);
      HeadBlocks(rep, h, p, z, w);
    }
  }

  /** A `DeclTail` that starts with a character it must later close with `)`
      cannot run through the head of a blocking text: either it has a `)`
      inside the head, where there is none, or it reaches the head's `))`. */
  lemma HeadBlocks(rep: string, h: nat, p: nat, z: string, w: string)
    requires Blocker(rep, h) && p < h && DeclTail(w) && !TailChar(w[0])
    requires |z| >= h + 2 - p && forall m :: 0 <= m < h + 2 - p ==> z[m] == rep[p + m]
    ensures !(w <= z)
  {
    assert ')' in w;
    var r :| 0 <= r < |w| && w[r] == ')';
    var g := h - p;
    if r < g {
      NotPrefixAt(w, z, r);
    } else if w[g] != ')' {
      NotPrefixAt(w, z, g);
    } else {
      NotPrefixAt(w, z, g + 1);
    }
  }

  /** A `DeclTail` starts at position `i` of `x` exactly when it starts the
      replacement's output from `i`. */
  lemma {:induction false} PrefixAgree(x: string, i: nat, rep: string, h: nat, w: string)
    requires i <= |x| && Blocker(rep, h) && DeclTail(w)
    ensures w <= x[i..] <==> w <= ReplaceFrom(x, CLOSE, rep, i)
    decreases |x| - i
  {
    var r := ReplaceFrom(x, CLOSE, rep, i);
    if i == |x| {
    } else if OccursAt(x, CLOSE, i) {
      var r3 := ReplaceFrom(x, CLOSE, rep, i + |CLOSE|);
      OccursAtSlice(x, CLOSE, i);
      assert x[i..] == CLOSE + x[i + 3..];
      CloseBlocks(w, x[i + 3..]);
      assert rep[0..] == rep;
      SuffixBlocks(rep, h, 0, r3, w);
    } else {
      var r1 := ReplaceFrom(x, CLOSE, rep, i + 1);
      assert r == [x[i]] + r1;
      assert x[i..] == [x[i]] + x[i + 1..];
      if |w| >= 2 {
        DeclTailSuffix(w);
        PrefixAgree(x, i + 1, rep, h, w[1..]);
        ConsPrefix(x[i], x[i + 1..], w);
        ConsPrefix(x[i], r1, w);
      }
    }
  }

  /** A non-empty string starts `[c] + t` exactly when its first character is
      `c` and the rest starts `t`. */
  lemma ConsPrefix(c: char, t: string, w: string)
    requires |w| >= 1
    ensures w <= [c] + t <==> w[0] == c && w[1..] <= t
  {
    if w <= [c] + t {
      assert w[1..] == ([c] + t)[1..|w|];
    }
    if w[0] == c && w[1..] <= t {
      assert w == [c] + w[1..];
    }
  }

  /** A match of `test\s*\([^)]+\)\s*async` occurs in `x` from `i` on exactly
      when it occurs in the replacement's output from `i`. */
  lemma {:induction false} ContainsAgree(x: string, i: nat, rep: string, h: nat, v: string)
    requires i <= |x| && Blocker(rep, h) && DeclTail(v) && v[0] == 't'
    ensures ContainsFrom(x, v, i) <==> Contains(ReplaceFrom(x, CLOSE, rep, i), v)
    decreases |x| - i
  {
    if i == |x| {
      assert !OccursAt(x, v, i);
      assert !OccursAt(ReplaceFrom(x, CLOSE, rep, i), v, 0);
    } else if OccursAt(x, CLOSE, i) {
      ContainsAgree(x, i + 3, rep, h, v);
      AgreeAtClose(x, i, rep, h, v);
    } else {
      ContainsAgree(x, i + 1, rep, h, v);
      AgreeAtCopy(x, i, rep, h, v);
    }
  }

  /** The step of `ContainsAgree` where a `});` is replaced. */
  lemma AgreeAtClose(x: string, i: nat, rep: string, h: nat, v: string)
    requires Blocker(rep, h) && DeclTail(v) && v[0] == 't' && OccursAt(x, CLOSE, i)
    requires i + 3 <= |x|
    requires ContainsFrom(x, v, i + 3) <==> Contains(ReplaceFrom(x, CLOSE, rep, i + 3), v)
    ensures ContainsFrom(x, v, i) <==> Contains(ReplaceFrom(x, CLOSE, rep, i), v)
  {
    var r3 := ReplaceFrom(x, CLOSE, rep, i + 3);
    ReplaceAtClose(x, i, rep);
    CloseSkip(x, i, v);
    SuffixSkip(rep, h, r3, v, 0);
    ContainsShift(rep, r3, v, 0);
  }

  /** The step of `ContainsAgree` where a character is copied. */
  lemma AgreeAtCopy(x: string, i: nat, rep: string, h: nat, v: string)
    requires Blocker(rep, h) && DeclTail(v) && v[0] == 't'
    requires i < |x| && !OccursAt(x, CLOSE, i)
    requires ContainsFrom(x, v, i + 1) <==> Contains(ReplaceFrom(x, CLOSE, rep, i + 1), v)
    ensures ContainsFrom(x, v, i) <==> Contains(ReplaceFrom(x, CLOSE, rep, i), v)
  {
    var r := ReplaceFrom(x, CLOSE, rep, i);
    var r1 := ReplaceFrom(x, CLOSE, rep, i + 1);
    ReplaceAtCopy(x, i, rep);
    PrefixAgree(x, i, rep, h, v);
    OccursPrefix(x, v, i);
    OccursPrefix(r, v, 0);
    assert r[0..] == r;
    ContainsShift([x[i]], r1, v, 0);
  }

  /** At a `});` the replacement emits `rep` and resumes after it. */
  lemma ReplaceAtClose(x: string, i: nat, rep: string)
    requires OccursAt(x, CLOSE, i)
    ensures i + 3 <= |x| && ReplaceFrom(x, CLOSE, rep, i) == rep + ReplaceFrom(x, CLOSE, rep, i + 3)
  {
  }

  /** Elsewhere it copies one character. */
  lemma ReplaceAtCopy(x: string, i: nat, rep: string)
    requires i < |x| && !OccursAt(x, CLOSE, i)
    ensures ReplaceFrom(x, CLOSE, rep, i) == [x[i]] + ReplaceFrom(x, CLOSE, rep, i + 1)
  {
  }

  /** No `t`-led match starts inside a `});`. */
  lemma CloseSkip(x: string, i: nat, v: string)
    requires OccursAt(x, CLOSE, i) && |v| >= 1 && v[0] == 't'
    ensures i + 3 <= |x|
    ensures ContainsFrom(x, v, i) <==> ContainsFrom(x, v, i + 3)
  {
    OccursAtSlice(x, CLOSE, i);
    assert x[i..i + 3] == CLOSE;
    assert x[i] == '}' && x[i + 1] == ')' && x[i + 2] == ';';
    assert !OccursAt(x, v, i) && !OccursAt(x, v, i + 1) && !OccursAt(x, v, i + 2);
    assert ContainsFrom(x, v, i + 2) == ContainsFrom(x, v, i + 3);
    assert ContainsFrom(x, v, i + 1) == ContainsFrom(x, v, i + 2);
  }

  /** No declaration match starts inside a blocking text. */
  lemma {:induction false} SuffixSkip(rep: string, h: nat, u: string, v: string, p: nat)
    requires Blocker(rep, h) && p <= |rep| && DeclTail(v) && v[0] == 't'
    ensures ContainsFrom(rep + u, v, p) <==> ContainsFrom(rep + u, v, |rep|)
    decreases |rep| - p
  {
    if p < |rep| {
      SuffixSkip(rep, h, u, v, p + 1);
      OccursPrefix(rep + u, v, p);
      assert (rep + u)[p..] == rep[p..] + u;
      SuffixBlocks(rep, h, p, u, v);
    }
  }

  /** `OccursAt` is the prefix test on the tail from `i`. */
  lemma OccursPrefix(s: string, w: string, i: nat)
    requires i <= |s|
    ensures OccursAt(s, w, i) <==> w <= s[i..]
  {
    OccursAtSlice(s, w, i);
    if w <= s[i..] {
      assert s[i..i + |w|] == s[i..][..|w|];
    }
  }

  /** Searching `a + b` past `a` is searching `b`. */
  lemma {:induction false} ContainsShift(a: string, b: string, w: string, j: nat)
    requires j <= |b|
    ensures ContainsFrom(a + b, w, |a| + j) <==> ContainsFrom(b, w, j)
    decreases |b| - j
  {
    OccursPrefix(a + b, w, |a| + j);
    OccursPrefix(b, w, j);
    assert (a + b)[|a| + j..] == b[j..];
    if j < |b| {
      ContainsShift(a, b, w, j + 1);
    }
  }
}
