/**
 The string primitives the timeout tools are built from, with the meaning
 Python gives them: `str.split('\n')`, `'\n'.join(...)`, `str.count(c)`,
 the substring test `w in s`, `str.replace(pat, rep)` and `str(n)` for an
 integer.
 */
module Text {

  /** `w` occurs in `s` starting at index `i`, compared character by character. */
  predicate OccursAt(s: string, w: string, i: nat)
    ensures OccursAt(s, w, i) ==> i + |w| <= |s|
    decreases |w|
  {
    if |w| == 0 then i <= |s| else i < |s| && s[i] == w[0] && OccursAt(s, w[1..], i + 1)
  }

  /** Python's `w in s`: `w` occurs somewhere in `s` (the empty string occurs everywhere). */
  predicate Contains(s: string, w: string) {
    ContainsFrom(s, w, 0)
  }

  /** `w` occurs in `s` at some index `i` or later. */
  predicate ContainsFrom(s: string, w: string, i: nat)
    requires i <= |s|
    decreases |s| - i
  {
    OccursAt(s, w, i) || (i < |s| && ContainsFrom(s, w, i + 1))
  }

  /** Python's `s.count(c)` for a one-character argument. */
  function CountChar(s: string, c: char): nat {
    if |s| == 0 then 0
    else (if s[0] == c then 1 else 0) + CountChar(s[1..], c)
  }

  /** Python's `s.split('\n')`: the pieces between newlines, at least one piece. */
  function Split(s: string): (r: seq<string>)
    ensures |r| >= 1
    ensures forall k :: 0 <= k < |r| ==> '\n' !in r[k]
  {
    if |s| == 0 then [""]
    else
      var rest := Split(s[1..]);
      if s[0] == '\n' then [""] + rest
      else [[s[0]] + rest[0]] + rest[1..]
  }

  /** Python's `'\n'.join(ls)`. */
  function Join(ls: seq<string>): string {
    if |ls| == 0 then ""
    else if |ls| == 1 then ls[0]
    else ls[0] + "\n" + Join(ls[1..])
  }

  /** Every piece of a list is free of newlines. */
  predicate NoNewlines(ls: seq<string>) {
    forall k :: 0 <= k < |ls| ==> '\n' !in ls[k]
  }

  /** Python's `s.replace(pat, rep)` applied to the suffix of `s` from index `i`:
      occurrences are taken left to right and do not overlap. */
  function ReplaceFrom(s: string, pat: string, rep: string, i: nat): string
    requires |pat| > 0 && i <= |s|
    decreases |s| - i
  {
    if i == |s| then ""
    else if OccursAt(s, pat, i) then rep + ReplaceFrom(s, pat, rep, i + |pat|)
    else [s[i]] + ReplaceFrom(s, pat, rep, i + 1)
  }

  /** Python's `s.replace(pat, rep)` for a non-empty `pat`. */
  function ReplaceAll(s: string, pat: string, rep: string): string
    requires |pat| > 0
  {
    ReplaceFrom(s, pat, rep, 0)
  }

  /** The decimal digits of a natural number, most significant first. */
  function Digits(n: nat): (r: string)
    ensures |r| >= 1
    ensures forall k :: 0 <= k < |r| ==> '0' <= r[k] <= '9'
    decreases n
  {
    var d := [('0' as int + n % 10) as char];
    if n < 10 then d else Digits(n / 10) + d
  }

  /** Python's `str(n)` (also what an f-string `{n}` produces) for an integer. */
  function DecimalString(n: int): (r: string)
    ensures |r| >= 1
    ensures forall k :: 0 <= k < |r| ==> r[k] == '-' || '0' <= r[k] <= '9'
    decreases if n < 0 then 1 else 0
  {
    if n < 0 then "-" + DecimalString(-n) else Digits(n)
  }

  /** The value of a string of decimal digits. */
  function DigitsValue(s: string): int
    decreases |s|
  {
    if |s| == 0 then 0
    else 10 * DigitsValue(s[..|s| - 1]) + (s[|s| - 1] as int - '0' as int)
  }

  /** Python's `int(s)` for the strings `DecimalString` produces. */
  function ParseDecimal(s: string): int {
    if |s| > 0 && s[0] == '-' then -DigitsValue(s[1..]) else DigitsValue(s)
  }

  // ---------------------------------------------------------------------------
  // Lemmas
  // ---------------------------------------------------------------------------

  /** Decimal formatting is undone by parsing: `int(str(n)) == n`. */
  lemma {:induction false} DigitsRoundTrip(n: nat)
    ensures DigitsValue(Digits(n)) == n
    decreases n
  {
    var d := [('0' as int + n % 10) as char];
    if n >= 10 {
      DigitsRoundTrip(n / 10);
      var r := Digits(n / 10) + d;
      assert r[..|r| - 1] == Digits(n / 10);
    }
  }

  lemma DecimalRoundTrip(n: int)
    ensures ParseDecimal(DecimalString(n)) == n
  {
    if n < 0 {
      DigitsRoundTrip(-n);
      assert DecimalString(n)[1..] == Digits(-n);
    } else {
      DigitsRoundTrip(n);
    }
  }

  /** The number of pieces `split('\n')` yields is one more than the number of newlines. */
  lemma {:induction false} SplitCount(s: string)
    ensures |Split(s)| == CountChar(s, '\n') + 1
  {
    if |s| > 0 {
      SplitCount(s[1..]);
    }
  }

  /** `'\n'.join(s.split('\n')) == s`. */
  lemma {:induction false} JoinSplit(s: string)
    ensures Join(Split(s)) == s
  {
    if |s| > 0 {
      var rest := Split(s[1..]);
      JoinSplit(s[1..]);
      if s[0] == '\n' {
        assert ([""] + rest)[1..] == rest;
      } else {
        var r := [[s[0]] + rest[0]] + rest[1..];
        if |rest| == 1 {
          assert r == [[s[0]] + rest[0]];
        } else {
          assert r[1..] == rest[1..];
          assert Join(rest) == rest[0] + "\n" + Join(rest[1..]);
        }
      }
    }
  }

  /** A string without newlines splits into itself. */
  lemma {:induction false} SplitLine(a: string)
    requires '\n' !in a
    ensures Split(a) == [a]
  {
    if |a| > 0 {
      assert a[0] in a;
      assert forall c :: c in a[1..] ==> c in a;
      SplitLine(a[1..]);
      assert [a[0]] + a[1..] == a;
    }
  }

  /** Splitting at the first newline. */
  lemma {:induction false} SplitCons(a: string, b: string)
    requires '\n' !in a
    ensures Split(a + "\n" + b) == [a] + Split(b)
  {
    if |a| == 0 {
      assert a + "\n" + b == "\n" + b;
      assert ("\n" + b)[1..] == b;
    } else {
      var s := a + "\n" + b;
      assert s[1..] == a[1..] + "\n" + b;
      assert a[0] in a;
      assert forall c :: c in a[1..] ==> c in a;
      SplitCons(a[1..], b);
      assert [a[0]] + a[1..] == a;
    }
  }

  /** `'\n'.join(ls).split('\n') == ls` when no piece holds a newline. */
  lemma {:induction false} SplitJoin(ls: seq<string>)
    requires |ls| >= 1 && NoNewlines(ls)
    ensures Split(Join(ls)) == ls
  {
    if |ls| == 1 {
      SplitLine(ls[0]);
    } else {
      assert '\n' !in ls[0];
      SplitCons(ls[0], Join(ls[1..]));
      SplitJoin(ls[1..]);
      assert [ls[0]] + ls[1..] == ls;
    }
  }

  /** An occurrence is a slice equal to `w`. */
  lemma {:induction false} OccursAtSlice(s: string, w: string, i: nat)
    ensures OccursAt(s, w, i) <==> i + |w| <= |s| && s[i..i + |w|] == w
    decreases |w|
  {
    if |w| > 0 {
      OccursAtSlice(s, w[1..], i + 1);
      if i + |w| <= |s| {
        assert s[i..i + |w|] == [s[i]] + s[i + 1..i + 1 + |w[1..]|];
        assert w == [w[0]] + w[1..];
      }
    }
  }

  /** The scan from `i` finds `w` exactly when it occurs at some index from `i` on. */
  lemma {:induction false} ContainsFromExists(s: string, w: string, i: nat)
    requires i <= |s|
    ensures ContainsFrom(s, w, i) <==> exists k: nat :: i <= k <= |s| && OccursAt(s, w, k)
    decreases |s| - i
  {
    if i < |s| {
      ContainsFromExists(s, w, i + 1);
      if OccursAt(s, w, i) {
        assert ContainsFrom(s, w, i);
        assert i <= i <= |s| && OccursAt(s, w, i);
        assert exists k: nat :: i <= k <= |s| && OccursAt(s, w, k);
      } else if ContainsFrom(s, w, i + 1) {
        var k: nat :| i + 1 <= k <= |s| && OccursAt(s, w, k);
        assert i <= k;
      } else {
        assert !ContainsFrom(s, w, i);
        forall k: nat | i <= k <= |s| ensures !OccursAt(s, w, k) {
          if k > i {
            assert i + 1 <= k;
          }
        }
      }
    } else if OccursAt(s, w, i) {
      assert ContainsFrom(s, w, i);
      assert i <= i <= |s| && OccursAt(s, w, i);
    } else {
      forall k: nat | i <= k <= |s| ensures !OccursAt(s, w, k) {
        assert k == i;
      }
    }
  }

  /** `w in s` holds exactly when `w` occurs in `s` at some index. */
  lemma ContainsExists(s: string, w: string)
    ensures Contains(s, w) <==> exists i: nat :: i <= |s| && OccursAt(s, w, i)
  {
    ContainsFromExists(s, w, 0);
  }

  /** Every text contains itself. */
  lemma ContainsSelf(w: string)
    ensures Contains(w, w)
  {
    assert w[0..|w|] == w;
    OccursAtSlice(w, w, 0);
    ContainsExists(w, w);
  }

  /** An occurrence inside a middle part is an occurrence in the whole. */
  lemma ContainsInfix(a: string, b: string, c: string, w: string)
    requires Contains(b, w)
    ensures Contains(a + b + c, w)
  {
    ContainsExists(b, w);
    var i: nat :| i <= |b| && OccursAt(b, w, i);
    var s := a + b + c;
    OccursAtSlice(b, w, i);
    assert s[|a| + i..|a| + i + |w|] == b[i..i + |w|];
    OccursAtSlice(s, w, |a| + i);
    ContainsExists(s, w);
  }

  /** A substring of a slice is a substring of the whole. */
  lemma ContainsSlice(s: string, lo: nat, hi: nat, w: string)
    requires lo <= hi <= |s| && Contains(s[lo..hi], w)
    ensures Contains(s, w)
  {
    assert s == s[..lo] + s[lo..hi] + s[hi..];
    ContainsInfix(s[..lo], s[lo..hi], s[hi..], w);
  }

  /** Containment is transitive. */
  lemma ContainsTrans(s: string, v: string, w: string)
    requires Contains(s, v) && Contains(v, w)
    ensures Contains(s, w)
  {
    ContainsExists(s, v);
    var i: nat :| i <= |s| && OccursAt(s, v, i);
    OccursAtSlice(s, v, i);
    assert s[i..i + |v|] == v;
    ContainsSlice(s, i, i + |v|, w);
  }

  /** A text in one of the joined lines is in the joined text. */
  lemma {:induction false} JoinContains(ls: seq<string>, k: nat, w: string)
    requires k < |ls| && Contains(ls[k], w)
    ensures Contains(Join(ls), w)
  {
    if |ls| == 1 {
    } else if k == 0 {
      ContainsInfix("", ls[0], "\n" + Join(ls[1..]), w);
      assert "" + ls[0] + ("\n" + Join(ls[1..])) == Join(ls);
    } else {
      JoinContains(ls[1..], k - 1, w);
      ContainsInfix(ls[0] + "\n", Join(ls[1..]), "", w);
      assert ls[0] + "\n" + Join(ls[1..]) + "" == Join(ls);
    }
  }

  /** Without an occurrence of `pat` from `i` on, `replace` copies the text. */
  lemma {:induction false} ReplaceNoOccurrence(s: string, pat: string, rep: string, i: nat)
    requires |pat| > 0 && i <= |s|
    requires forall k :: i <= k < |s| ==> !OccursAt(s, pat, k)
    ensures ReplaceFrom(s, pat, rep, i) == s[i..]
    decreases |s| - i
  {
    if i < |s| {
      ReplaceNoOccurrence(s, pat, rep, i + 1);
      assert s[i..] == [s[i]] + s[i + 1..];
    }
  }

  /** Replacing `pat` by a `rep` with as many `c` characters keeps the count of `c`. */
  lemma {:induction false} ReplaceKeepsCount(s: string, pat: string, rep: string, i: nat, c: char)
    requires |pat| > 0 && i <= |s|
    requires CountChar(pat, c) == CountChar(rep, c)
    ensures CountChar(ReplaceFrom(s, pat, rep, i), c) == CountChar(s[i..], c)
    decreases |s| - i
  {
    if i < |s| {
      if OccursAt(s, pat, i) {
        ReplaceKeepsCount(s, pat, rep, i + |pat|, c);
        ReplaceCountMatch(s, pat, rep, i, c);
      } else {
        ReplaceKeepsCount(s, pat, rep, i + 1, c);
        ReplaceCountCopy(s, pat, rep, i, c);
      }
    }
  }

  /** The count step where `pat` occurs at `i` and is replaced. */
  lemma ReplaceCountMatch(s: string, pat: string, rep: string, i: nat, c: char)
    requires |pat| > 0 && i < |s| && OccursAt(s, pat, i)
    requires CountChar(pat, c) == CountChar(rep, c)
    requires CountChar(ReplaceFrom(s, pat, rep, i + |pat|), c) == CountChar(s[i + |pat|..], c)
    ensures CountChar(ReplaceFrom(s, pat, rep, i), c) == CountChar(s[i..], c)
  {
    var tail := i + |pat|;
    OccursAtSlice(s, pat, i);
    assert s[i..] == pat + s[tail..];
    CountConcat(pat, s[tail..], c);
    CountConcat(rep, ReplaceFrom(s, pat, rep, tail), c);
  }

  /** The count step where `s[i]` is copied. */
  lemma ReplaceCountCopy(s: string, pat: string, rep: string, i: nat, c: char)
    requires |pat| > 0 && i < |s| && !OccursAt(s, pat, i)
    requires CountChar(ReplaceFrom(s, pat, rep, i + 1), c) == CountChar(s[i + 1..], c)
    ensures CountChar(ReplaceFrom(s, pat, rep, i), c) == CountChar(s[i..], c)
  {
    assert s[i..] == [s[i]] + s[i + 1..];
    CountConcat([s[i]], s[i + 1..], c);
    CountConcat([s[i]], ReplaceFrom(s, pat, rep, i + 1), c);
  }

  /** Concatenation is associative. */
  lemma AppendAssoc(a: string, b: string, c: string)
    ensures a + (b + c) == (a + b) + c
  {
  }

  /** `count` is additive over concatenation. */
  lemma {:induction false} CountConcat(a: string, b: string, c: char)
    ensures CountChar(a + b, c) == CountChar(a, c) + CountChar(b, c)
  {
    if |a| > 0 {
      CountConcat(a[1..], b, c);
      assert (a + b)[1..] == a[1..] + b;
    } else {
      assert a + b == b;
    }
  }

  /** `count` is the multiplicity of the character in the string. */
  lemma {:induction false} CountIsMultiplicity(s: string, c: char)
    ensures CountChar(s, c) == multiset(s)[c]
  {
    if |s| > 0 {
      CountIsMultiplicity(s[1..], c);
      assert s == [s[0]] + s[1..];
      assert multiset(s) == multiset([s[0]]) + multiset(s[1..]);
    }
  }

  /** A character counted zero times does not occur. */
  lemma {:induction false} CountZeroAbsent(x: string, c: char)
    requires CountChar(x, c) == 0
    ensures c !in x
  {
    if |x| > 0 {
      CountZeroAbsent(x[1..], c);
      assert x == [x[0]] + x[1..];
    }
  }

  /** A character that does not occur is counted zero times. */
  lemma {:induction false} CountAbsent(x: string, c: char)
    requires c !in x
    ensures CountChar(x, c) == 0
  {
    if |x| > 0 {
      assert x[0] in x;
      assert forall d :: d in x[1..] ==> d in x;
      CountAbsent(x[1..], c);
    }
  }

  /** If `pat` occurs at or after `i`, the result of `replace` contains `rep`. */
  lemma {:induction false} ReplaceInsertsRep(s: string, pat: string, rep: string, i: nat, k: nat)
    requires |pat| > 0 && i <= k && OccursAt(s, pat, k)
    ensures Contains(ReplaceFrom(s, pat, rep, i), rep)
    decreases |s| - i
  {
    if OccursAt(s, pat, i) {
      var r := ReplaceFrom(s, pat, rep, i + |pat|);
      assert (rep + r)[0..|rep|] == rep;
      OccursAtSlice(rep + r, rep, 0);
      ContainsExists(rep + r, rep);
    } else {
      ReplaceInsertsRep(s, pat, rep, i + 1, k);
      ContainsInfix([s[i]], ReplaceFrom(s, pat, rep, i + 1), "", rep);
      assert [s[i]] + ReplaceFrom(s, pat, rep, i + 1) + "" == ReplaceFrom(s, pat, rep, i);
    }
  }
}
