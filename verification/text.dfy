/** Plain text operations on `string = seq<char>`: the string functions of the
    Rust and TypeScript standard libraries that the build engine relies on. */
module Text {
  import opened Wrappers

  predicate StartsWith(s: string, p: string) {
    |p| <= |s| && s[..|p|] == p
  }

  predicate EndsWith(s: string, p: string) {
    |p| <= |s| && s[|s| - |p|..] == p
  }

  /** `p` occurs in `s` starting at index `i`. */
  predicate OccursAt(s: string, p: string, i: int) {
    0 <= i && i + |p| <= |s| && s[i..i + |p|] == p
  }

  /** Substring test (`str::contains`, `String.prototype.includes`). */
  predicate Contains(s: string, p: string) {
    exists i | 0 <= i <= |s| - |p| :: OccursAt(s, p, i)
  }

  lemma OccursInTail(s: string, p: string, i: int)
    requires |s| > 0 && i >= 0 && OccursAt(s, p, i + 1)
    ensures OccursAt(s[1..], p, i)
  {
    assert s[1..][i..i + |p|] == s[i + 1..i + 1 + |p|];
  }

  lemma OccursInCons(s: string, p: string, i: int)
    requires |s| > 0 && OccursAt(s[1..], p, i)
    ensures OccursAt(s, p, i + 1)
  {
    assert s[1..][i..i + |p|] == s[i + 1..i + 1 + |p|];
  }

  lemma OccursInPrefix(s: string, t: string, p: string, i: int)
    requires OccursAt(s, p, i) && StartsWith(t, s)
    ensures OccursAt(t, p, i)
  {
    assert t[i..i + |p|] == t[..|s|][i..i + |p|];
  }

  lemma OccursInSuffix(s: string, k: nat, p: string, i: int)
    requires k <= |s| && OccursAt(s[k..], p, i)
    ensures OccursAt(s, p, i + k)
  {
    assert s[k..][i..i + |p|] == s[i + k..i + k + |p|];
  }

  lemma OccursInConcat(a: string, b: string, p: string, i: int)
    requires OccursAt(a, p, i) || OccursAt(b, p, i - |a|)
    ensures OccursAt(a + b, p, i)
  {
    if OccursAt(a, p, i) {
      assert (a + b)[i..i + |p|] == a[i..i + |p|];
    } else {
      assert (a + b)[i..i + |p|] == b[i - |a|..i - |a| + |p|];
    }
  }

  lemma ContainsInTail(s: string, p: string)
    requires |s| > 0
    ensures Contains(s[1..], p) ==> Contains(s, p)
  {
    if Contains(s[1..], p) {
      var i :| 0 <= i <= |s[1..]| - |p| && OccursAt(s[1..], p, i);
      OccursInCons(s, p, i);
    }
  }

  /** A string that does not contain the one-character string `[c]` does
      not contain `c`. */
  lemma NoCharOccurrence(s: string, c: char)
    requires !Contains(s, [c])
    ensures c !in s
  {
    forall j | 0 <= j < |s| ensures s[j] != c {
      assert !OccursAt(s, [c], j);
      assert s[j..j + 1] == [s[j]];
    }
  }

  /** No occurrence of `p` starts in `s` before index `k`. */
  predicate NoneBefore(s: string, p: string, k: int) {
    forall j :: 0 <= j < k ==> !OccursAt(s, p, j)
  }

  /** Index of the first occurrence of `p` in `s` (`str::find`, `indexOf`). */
  function IndexOf(s: string, p: string): (r: Option<nat>)
    ensures r.Some? ==> OccursAt(s, p, r.value) && NoneBefore(s, p, r.value)
    ensures r.None? <==> !Contains(s, p)
    decreases |s|
  {
    if |s| < |p| then None
    else if s[..|p|] == p then
      assert OccursAt(s, p, 0);
      Some(0)
    else
      match IndexOf(s[1..], p)
      case None =>
        assert !Contains(s, p) by {
          forall i | OccursAt(s, p, i) ensures false {
            if i > 0 { OccursInTail(s, p, i - 1); }
          }
        }
        None
      case Some(k) =>
        OccursInCons(s, p, k);
        assert NoneBefore(s, p, k + 1) by {
          forall j | 0 <= j < k + 1 && OccursAt(s, p, j) ensures false {
            if j > 0 { OccursInTail(s, p, j - 1); }
          }
        }
        Some(k + 1)
  }

  /** Joins `parts` with `sep` between consecutive parts (`join`). */
  function Join(parts: seq<string>, sep: string): string {
    if |parts| == 0 then ""
    else if |parts| == 1 then parts[0]
    else parts[0] + sep + Join(parts[1..], sep)
  }

  lemma JoinSplitAt(parts: seq<string>, sep: string, i: nat)
    requires 0 < i < |parts|
    ensures Join(parts, sep) == Join(parts[..i], sep) + sep + Join(parts[i..], sep)
    decreases i
  {
    if i > 1 {
      JoinSplitAt(parts[1..], sep, i - 1);
      assert parts[1..][..i - 1] == parts[..i][1..];
      assert parts[1..][i - 1..] == parts[i..];
    }
  }

  /** Leftmost, non-overlapping split of `s` at every occurrence of `p`
      (`str::split` with a string pattern). */
  function Split(s: string, p: string): (parts: seq<string>)
    requires |p| > 0
    ensures |parts| >= 1
    ensures StartsWith(s, parts[0])
    decreases |s|
  {
    if |s| < |p| then [s]
    else if s[..|p|] == p then [""] + Split(s[|p|..], p)
    else
      var rest := Split(s[1..], p);
      assert StartsWith(s, [s[0]] + rest[0]) by {
        assert s == [s[0]] + s[1..];
      }
      [[s[0]] + rest[0]] + rest[1..]
  }

  /** The unfolding of `Split` alone. */
  lemma SplitStep(s: string, p: string)
    requires 0 < |p| <= |s|
    ensures s[..|p|] == p ==> Split(s, p) == [""] + Split(s[|p|..], p)
    ensures s[..|p|] != p ==> Split(s, p) == [[s[0]] + Split(s[1..], p)[0]] + Split(s[1..], p)[1..]
  {
  }

  /** Joining the parts of a split with the pattern gives the text back. */
  lemma {:induction false} SplitJoin(s: string, p: string)
    requires |p| > 0
    ensures Join(Split(s, p), p) == s
    decreases |s|
  {
    if |s| < |p| {
    } else if s[..|p|] == p {
      SplitStep(s, p);
      SplitJoin(s[|p|..], p);
      JoinCons("", Split(s[|p|..], p), p);
      assert s == p + s[|p|..];
    } else {
      SplitStep(s, p);
      SplitJoin(s[1..], p);
      JoinExtendHead(s[0], Split(s[1..], p), p);
      assert s == [s[0]] + s[1..];
    }
  }

  /** No part of a split contains the pattern: every occurrence was cut. */
  lemma {:induction false} SplitPartsFree(s: string, p: string)
    requires |p| > 0
    ensures forall i :: 0 <= i < |Split(s, p)| ==> !Contains(Split(s, p)[i], p)
    decreases |s|
  {
    if |s| < |p| {
      assert !Contains(s, p);
    } else if s[..|p|] == p {
      SplitPartsFree(s[|p|..], p);
      assert !Contains("", p);
      var parts := Split(s, p);
      assert forall i :: 1 <= i < |parts| ==> parts[i] == Split(s[|p|..], p)[i - 1];
    } else {
      SplitPartsFree(s[1..], p);
      var rest := Split(s[1..], p);
      var first := [s[0]] + rest[0];
      assert !Contains(first, p) by {
        forall i | OccursAt(first, p, i) ensures false {
          if i == 0 {
            OccursInPrefix(first, s, p, 0);
          } else {
            assert first[1..] == rest[0];
            OccursInTail(first, p, i - 1);
          }
        }
      }
      var parts := Split(s, p);
      assert forall i :: 1 <= i < |parts| ==> parts[i] == rest[i];
    }
  }

  /** Splitting at a one-character pattern yields one more part than the
      number of times that character occurs (`split('.').length`). */
  lemma {:induction false} SplitCount(s: string, c: char)
    ensures |Split(s, [c])| == multiset(s)[c] + 1
    decreases |s|
  {
    if |s| < 1 {
      assert s == [];
    } else if s[..1] == [c] {
      SplitCount(s[1..], c);
      assert s == [c] + s[1..];
    } else {
      SplitCount(s[1..], c);
      assert s == [s[0]] + s[1..];
      assert s[0] != c by { assert s[..1] == [s[0]]; }
    }
  }

  /** Splitting at a one-character separator distributes over a separator
      placed between two strings. */
  lemma {:induction false} SplitAroundSeparator(a: string, c: char, b: string)
    ensures Split(a + [c] + b, [c]) == Split(a, [c]) + Split(b, [c])
    decreases |a|
  {
    var s := a + [c] + b;
    SplitStep(s, [c]);
    if |a| == 0 {
      assert s[..1] == [c];
      assert s[1..] == b;
    } else if a[..1] == [c] {
      SplitStep(a, [c]);
      assert s[..1] == [c];
      assert s[1..] == a[1..] + [c] + b;
      SplitAroundSeparator(a[1..], c, b);
    } else {
      SplitStep(a, [c]);
      assert s[..1] == a[..1];
      assert s[1..] == a[1..] + [c] + b;
      SplitAroundSeparator(a[1..], c, b);
      var ra := Split(a[1..], [c]);
      var rest := Split(s[1..], [c]);
      assert rest == ra + Split(b, [c]);
      assert rest[0] == ra[0];
      assert rest[1..] == ra[1..] + Split(b, [c]);
    }
  }

  /** A text without the separator splits into itself. */
  lemma {:induction false} SplitWithoutSeparator(a: string, c: char)
    requires c !in a
    ensures Split(a, [c]) == [a]
    decreases |a|
  {
    if |a| >= 1 {
      assert a[..1] != [c] by { assert a[..1][0] == a[0]; }
      assert c !in a[1..] by { assert forall x :: x in a[1..] ==> x in a; }
      SplitWithoutSeparator(a[1..], c);
      assert [a[0]] + a[1..] == a;
    }
  }

  /** Splitting a join of separator-free parts gives the parts back. */
  lemma {:induction false} SplitOfJoin(parts: seq<string>, c: char)
    requires |parts| >= 1 && forall i :: 0 <= i < |parts| ==> c !in parts[i]
    ensures Split(Join(parts, [c]), [c]) == parts
    decreases |parts|
  {
    if |parts| == 1 {
      SplitWithoutSeparator(parts[0], c);
    } else {
      SplitOfJoin(parts[1..], c);
      SplitAroundSeparator(parts[0], c, Join(parts[1..], [c]));
      SplitWithoutSeparator(parts[0], c);
      assert parts == [parts[0]] + parts[1..];
    }
  }

  /** Replaces every leftmost, non-overlapping occurrence of `p` in `s` by
      `rep` (`str::replace`). */
  function ReplaceAll(s: string, p: string, rep: string): string
    requires |p| > 0
    decreases |s|
  {
    if |s| < |p| then s
    else if s[..|p|] == p then rep + ReplaceAll(s[|p|..], p, rep)
    else [s[0]] + ReplaceAll(s[1..], p, rep)
  }

  /** Text without a copy of the pattern comes back unchanged. */
  lemma {:induction false} ReplaceAllNoMatch(s: string, p: string, rep: string)
    requires |p| > 0 && !Contains(s, p)
    ensures ReplaceAll(s, p, rep) == s
    decreases |s|
  {
    if |s| >= |p| {
      assert !OccursAt(s, p, 0);
      assert !Contains(s[1..], p) by {
        if Contains(s[1..], p) {
          var i :| 0 <= i <= |s[1..]| - |p| && OccursAt(s[1..], p, i);
          OccursInCons(s, p, i);
        }
      }
      ReplaceAllNoMatch(s[1..], p, rep);
      assert s == [s[0]] + s[1..];
    }
  }

  /** Every copy of `p` is replaced and all other text is kept: the result
      is the split of `s` at `p`, joined back with `rep`. */
  lemma {:induction false} ReplaceAllIsSplitJoin(s: string, p: string, rep: string)
    requires |p| > 0
    ensures ReplaceAll(s, p, rep) == Join(Split(s, p), rep)
    decreases |s|
  {
    if |s| < |p| {
    } else if s[..|p|] == p {
      ReplaceAllIsSplitJoin(s[|p|..], p, rep);
      MatchStep(s, p, rep);
      JoinCons("", Split(s[|p|..], p), rep);
    } else {
      ReplaceAllIsSplitJoin(s[1..], p, rep);
      CopyStep(s, p, rep);
      JoinExtendHead(s[0], Split(s[1..], p), rep);
    }
  }

  /** The unfolding of `Split` and `ReplaceAll` at a match. */
  lemma MatchStep(s: string, p: string, rep: string)
    requires 0 < |p| <= |s| && s[..|p|] == p
    ensures Split(s, p) == [""] + Split(s[|p|..], p)
    ensures ReplaceAll(s, p, rep) == rep + ReplaceAll(s[|p|..], p, rep)
  {
  }

  /** The unfolding of `Split` and `ReplaceAll` where no match starts. */
  lemma CopyStep(s: string, p: string, rep: string)
    requires 0 < |p| <= |s| && s[..|p|] != p
    ensures Split(s, p) == [[s[0]] + Split(s[1..], p)[0]] + Split(s[1..], p)[1..]
    ensures ReplaceAll(s, p, rep) == [s[0]] + ReplaceAll(s[1..], p, rep)
  {
  }

  /** The unfolding of `ReplaceAll` alone: a match is replaced, anything
      else is copied one character at a time. */
  lemma ReplaceStep(s: string, p: string, rep: string)
    requires 0 < |p| <= |s|
    ensures s[..|p|] == p ==> ReplaceAll(s, p, rep) == rep + ReplaceAll(s[|p|..], p, rep)
    ensures s[..|p|] != p ==> ReplaceAll(s, p, rep) == [s[0]] + ReplaceAll(s[1..], p, rep)
  {
  }

  /** Joining after a new first part. */
  lemma JoinCons(x: string, rest: seq<string>, sep: string)
    requires |rest| >= 1
    ensures Join([x] + rest, sep) == x + sep + Join(rest, sep)
  {
    assert ([x] + rest)[1..] == rest;
  }

  /** Joining after a character is put in front of the first part. */
  lemma JoinExtendHead(c: char, rest: seq<string>, sep: string)
    requires |rest| >= 1
    ensures Join([[c] + rest[0]] + rest[1..], sep) == [c] + Join(rest, sep)
  {
    var parts := [[c] + rest[0]] + rest[1..];
    if |rest| > 1 {
      assert parts[1..] == rest[1..];
    }
  }

  /** The characterisation of `ReplaceAll` in one statement: there are
      pattern-free pieces that rebuild `s` when joined with `p` and rebuild the
      result when joined with `rep`. */
  lemma ReplaceAllSpec(s: string, p: string, rep: string)
    requires |p| > 0
    ensures var parts := Split(s, p);
      && Join(parts, p) == s
      && Join(parts, rep) == ReplaceAll(s, p, rep)
      && forall i :: 0 <= i < |parts| ==> !Contains(parts[i], p)
  {
    SplitJoin(s, p);
    SplitPartsFree(s, p);
    ReplaceAllIsSplitJoin(s, p, rep);
  }

  /** No occurrence of `p` in `a + b` starts inside `a` and ends inside `b`. */
  predicate NoStraddle(a: string, b: string, p: string) {
    forall i :: 0 <= i < |a| < i + |p| ==> !OccursAt(a + b, p, i)
  }

  /** Replacing in a concatenation is replacing in each half, when no copy of
      the pattern crosses the join. */
  lemma {:induction false} ReplaceAllConcat(a: string, b: string, p: string, rep: string)
    requires |p| > 0 && NoStraddle(a, b, p)
    ensures ReplaceAll(a + b, p, rep) == ReplaceAll(a, p, rep) + ReplaceAll(b, p, rep)
    decreases |a|, 1
  {
    if |a| == 0 {
      assert a + b == b;
    } else if |a| < |p| {
      if |a + b| >= |p| {
        ConcatShortHead(a, b, p, rep);
      }
    } else if a[..|p|] == p {
      ConcatAtMatch(a, b, p, rep);
    } else {
      ConcatAtCopy(a, b, p, rep);
    }
  }

  /** `ReplaceAllConcat` when `a` is shorter than the pattern. */
  lemma {:induction false} ConcatShortHead(a: string, b: string, p: string, rep: string)
    requires 0 < |a| < |p| <= |a + b| && NoStraddle(a, b, p)
    ensures ReplaceAll(a + b, p, rep) == ReplaceAll(a, p, rep) + ReplaceAll(b, p, rep)
    decreases |a|, 0
  {
    ShortHeadStep(a, b, p, rep);
    NoStraddleTail(a, b, p, 1);
    ReplaceAllConcat(a[1..], b, p, rep);
    var x, y := ReplaceAll(a[1..], p, rep), ReplaceAll(b, p, rep);
    assert [a[0]] + (x + y) == ([a[0]] + x) + y;
  }

  lemma ShortHeadStep(a: string, b: string, p: string, rep: string)
    requires 0 < |a| < |p| <= |a + b| && NoStraddle(a, b, p)
    ensures ReplaceAll(a + b, p, rep) == [a[0]] + ReplaceAll(a[1..] + b, p, rep)
    ensures ReplaceAll(a, p, rep) == [a[0]] + ReplaceAll(a[1..], p, rep)
  {
    var s := a + b;
    assert !OccursAt(s, p, 0);
    assert s[0] == a[0] && s[1..] == a[1..] + b;
    ReplaceStep(s, p, rep);
    assert a == [a[0]] + a[1..];
  }

  /** `ReplaceAllConcat` when `a` starts with the pattern. */
  lemma {:induction false} ConcatAtMatch(a: string, b: string, p: string, rep: string)
    requires 0 < |p| <= |a| && a[..|p|] == p && NoStraddle(a, b, p)
    ensures ReplaceAll(a + b, p, rep) == ReplaceAll(a, p, rep) + ReplaceAll(b, p, rep)
    decreases |a|, 0
  {
    var s := a + b;
    assert s[..|p|] == a[..|p|];
    assert s[|p|..] == a[|p|..] + b;
    ReplaceStep(s, p, rep);
    ReplaceStep(a, p, rep);
    NoStraddleTail(a, b, p, |p|);
    ReplaceAllConcat(a[|p|..], b, p, rep);
    var x, y := ReplaceAll(a[|p|..], p, rep), ReplaceAll(b, p, rep);
    assert ReplaceAll(s, p, rep) == rep + (x + y);
    assert ReplaceAll(a, p, rep) == rep + x;
    assert rep + (x + y) == (rep + x) + y;
  }

  /** `ReplaceAllConcat` when `a` is long enough but does not start with the
      pattern. */
  lemma {:induction false} ConcatAtCopy(a: string, b: string, p: string, rep: string)
    requires 0 < |p| <= |a| && a[..|p|] != p && NoStraddle(a, b, p)
    ensures ReplaceAll(a + b, p, rep) == ReplaceAll(a, p, rep) + ReplaceAll(b, p, rep)
    decreases |a|, 0
  {
    CopyHead(a, b, p, rep);
    NoStraddleTail(a, b, p, 1);
    ReplaceAllConcat(a[1..], b, p, rep);
    var x, y := ReplaceAll(a[1..], p, rep), ReplaceAll(b, p, rep);
    assert [a[0]] + (x + y) == ([a[0]] + x) + y;
  }

  /** A head that does not start with the pattern is copied, alone and
      before `b`. */
  lemma CopyHead(a: string, b: string, p: string, rep: string)
    requires 0 < |p| <= |a| && a[..|p|] != p
    ensures ReplaceAll(a + b, p, rep) == [a[0]] + ReplaceAll(a[1..] + b, p, rep)
    ensures ReplaceAll(a, p, rep) == [a[0]] + ReplaceAll(a[1..], p, rep)
  {
    var s := a + b;
    assert s[..|p|] == a[..|p|];
    assert s[0] == a[0] && s[1..] == a[1..] + b;
    ReplaceStep(s, p, rep);
    ReplaceStep(a, p, rep);
  }

  lemma NoStraddleTail(a: string, b: string, p: string, k: nat)
    requires k <= |a| && NoStraddle(a, b, p)
    ensures NoStraddle(a[k..], b, p)
  {
    assert a[k..] + b == (a + b)[k..];
    forall i | 0 <= i < |a[k..]| < i + |p| ensures !OccursAt(a[k..] + b, p, i) {
      if OccursAt(a[k..] + b, p, i) {
        OccursInSuffix(a + b, k, p, i);
      }
    }
  }

  /** A pattern whose first two characters cannot reappear as a pair
      further along cannot straddle a join after which it occurs. */
  lemma NoStraddleBeforeCopy(a: string, p: string)
    requires |p| >= 2
    requires forall k :: 0 < k < |p| ==> p[k] != p[0] || (k + 1 < |p| && p[k + 1] != p[1])
    ensures NoStraddle(a, p, p)
  {
    forall i | 0 <= i < |a| < i + |p| ensures !OccursAt(a + p, p, i) {
      var k := |a| - i;
      var w := (a + p)[i..i + |p|];
      assert w[k] == p[0];
      if k + 1 < |p| {
        assert w[k + 1] == p[1];
      }
      assert p[k] != p[0] || (k + 1 < |p| && p[k + 1] != p[1]);
      assert w != p;
    }
  }

  /** A copy of `p` in `a + b` lies in `a`, in `b` or across the join. */
  lemma ConcatNoOccurrence(a: string, b: string, p: string)
    requires NoStraddle(a, b, p) && !Contains(a, p) && !Contains(b, p)
    ensures !Contains(a + b, p)
  {
    forall i | 0 <= i <= |a + b| - |p| && OccursAt(a + b, p, i) ensures false {
      if i + |p| <= |a| {
        assert (a + b)[i..i + |p|] == a[i..i + |p|];
        assert OccursAt(a, p, i);
      } else if i >= |a| {
        assert (a + b)[i..i + |p|] == b[i - |a|..i - |a| + |p|];
        assert OccursAt(b, p, i - |a|);
      }
    }
  }

  /** Replacing `p` keeps a copy of `q` that no copy of `p` overlaps. */
  lemma ReplaceKeepsOccurrence(s: string, p: string, q: string, rep: string, i: nat)
    requires |p| > 0 && |q| > 0 && OccursAt(s, q, i)
    requires forall j :: OccursAt(s, p, j) ==> j + |p| <= i || i + |q| <= j
    ensures Contains(ReplaceAll(s, p, rep), q)
  {
    var a, b := s[..i], s[i + |q|..];
    KeepSplit(s, q, i);
    assert NoStraddle(a, q + b, p) by {
      forall j | 0 <= j < |a| < j + |p| ensures !OccursAt(a + (q + b), p, j) {
        assert a + (q + b) == s;
      }
    }
    ReplaceAllConcat(a, q + b, p, rep);
    KeepMiddle(s, p, q, rep, i);
    KeepInside(ReplaceAll(a, p, rep), q, ReplaceAll(b, p, rep));
  }

  lemma KeepSplit(s: string, q: string, i: nat)
    requires OccursAt(s, q, i)
    ensures s == s[..i] + (q + s[i + |q|..])
    ensures s[i..] == q + s[i + |q|..]
  {
  }

  /** The middle step of `ReplaceKeepsOccurrence`: the copy of `q` and the
      text after it. */
  lemma KeepMiddle(s: string, p: string, q: string, rep: string, i: nat)
    requires |p| > 0 && |q| > 0 && OccursAt(s, q, i)
    requires forall j :: OccursAt(s, p, j) ==> j + |p| <= i || i + |q| <= j
    ensures ReplaceAll(q + s[i + |q|..], p, rep) == q + ReplaceAll(s[i + |q|..], p, rep)
  {
    var b := s[i + |q|..];
    KeepSplit(s, q, i);
    assert NoStraddle(q, b, p) by {
      forall j | 0 <= j < |q| < j + |p| ensures !OccursAt(q + b, p, j) {
        if OccursAt(q + b, p, j) {
          OccursInSuffix(s, i, p, j);
        }
      }
    }
    ReplaceAllConcat(q, b, p, rep);
    assert !Contains(q, p) by {
      forall j | 0 <= j <= |q| - |p| && OccursAt(q, p, j) ensures false {
        assert OccursAt(q + b, p, j) by {
          assert (q + b)[j..j + |p|] == q[j..j + |p|];
        }
        OccursInSuffix(s, i, p, j);
      }
    }
    ReplaceAllNoMatch(q, p, rep);
  }

  lemma KeepInside(a: string, q: string, b: string)
    ensures Contains(a + (q + b), q)
  {
    assert (a + (q + b))[|a|..|a| + |q|] == q;
    assert OccursAt(a + (q + b), q, |a|);
  }

  /** Replacing a whole text that is the pattern gives the replacement. */
  lemma WholeReplaced(s: string, rep: string)
    requires |s| > 0
    ensures ReplaceAll(s, s, rep) == rep
  {
    assert s[..|s|] == s;
    assert s[|s|..] == [];
  }

  /** `n` copies of `s` (`str::repeat`). */
  function Repeat(s: string, n: nat): (r: string)
    ensures |r| == n * |s|
  {
    if n == 0 then "" else s + Repeat(s, n - 1)
  }

  /** The elements of `s` that satisfy `f`, in order. */
  function Filter<T(!new)>(s: seq<T>, f: T -> bool): (r: seq<T>)
    ensures |r| <= |s|
    ensures forall x :: x in r <==> x in s && f(x)
  {
    if |s| == 0 then []
    else if f(s[0]) then [s[0]] + Filter(s[1..], f)
    else Filter(s[1..], f)
  }

  /** Filtering one element keeps it exactly when it passes. */
  lemma FilterSingle<T(!new)>(x: T, f: T -> bool)
    ensures Filter([x], f) == if f(x) then [x] else []
  {
    assert [x][1..] == [];
  }

  /** Filtering distributes over concatenation. */
  lemma {:induction false} FilterConcat<T(!new)>(a: seq<T>, b: seq<T>, f: T -> bool)
    ensures Filter(a + b, f) == Filter(a, f) + Filter(b, f)
    decreases |a|
  {
    if |a| > 0 {
      FilterConcat(a[1..], b, f);
      assert (a + b)[1..] == a[1..] + b;
    } else {
      assert a + b == b;
    }
  }

  /** Filtering twice is filtering by the stricter test. */
  lemma {:induction false} FilterOfFilter<T(!new)>(s: seq<T>, f: T -> bool, g: T -> bool)
    requires forall x :: g(x) ==> f(x)
    ensures Filter(Filter(s, f), g) == Filter(s, g)
    decreases |s|
  {
    if |s| > 0 {
      FilterOfFilter(s[1..], f, g);
      if f(s[0]) {
        assert ([s[0]] + Filter(s[1..], f))[1..] == Filter(s[1..], f);
      }
    }
  }

  /** The filter keeps a last element that passes it, as its own last. */
  lemma FilterKeepsLast<T(!new)>(s: seq<T>, f: T -> bool)
    requires |s| > 0 && f(s[|s| - 1])
    ensures |Filter(s, f)| > 0 && Filter(s, f)[|Filter(s, f)| - 1] == s[|s| - 1]
  {
    var last := s[|s| - 1];
    assert s == s[..|s| - 1] + [last];
    FilterConcat(s[..|s| - 1], [last], f);
    FilterSingle(last, f);
  }

  /** Rust's `char::is_whitespace` (the Unicode White_Space property). */
  predicate IsRustSpace(c: char) {
    var n := c as int;
    (9 <= n <= 13) || n == 0x20 || n == 0x85 || n == 0xA0 || n == 0x1680
    || (0x2000 <= n <= 0x200A) || n == 0x2028 || n == 0x2029 || n == 0x202F
    || n == 0x205F || n == 0x3000
  }

  /** The characters ECMAScript's `String.prototype.trim` removes
      (WhiteSpace and LineTerminator). */
  predicate IsJsSpace(c: char) {
    var n := c as int;
    (9 <= n <= 13) || n == 0x20 || n == 0xA0 || n == 0xFEFF || n == 0x1680
    || (0x2000 <= n <= 0x200A) || n == 0x2028 || n == 0x2029 || n == 0x202F
    || n == 0x205F || n == 0x3000
  }

  /** Length of the longest prefix of `s` made of characters satisfying `space`. */
  function LeadingCount(s: string, space: char -> bool): (k: nat)
    ensures k <= |s|
    ensures forall j :: 0 <= j < k ==> space(s[j])
    ensures k == |s| || !space(s[k])
  {
    if |s| > 0 && space(s[0]) then 1 + LeadingCount(s[1..], space) else 0
  }

  /** `LeadingCount` is fixed by its contract: a prefix length whose
      characters all satisfy `space` and that is followed by a non-space (or
      the end) is the leading count. */
  lemma {:induction false} LeadingCountUnique(s: string, space: char -> bool, k: nat)
    requires k <= |s| && (forall j :: 0 <= j < k ==> space(s[j])) && (k == |s| || !space(s[k]))
    ensures LeadingCount(s, space) == k
    decreases k
  {
    if k > 0 {
      assert space(s[0]);
      LeadingCountUnique(s[1..], space, k - 1);
    }
  }

  /** Index of the first `c` in `s`. */
  function FirstIndexOf(s: string, c: char): (k: nat)
    requires c in s
    ensures k < |s| && s[k] == c && c !in s[..k]
  {
    if s[0] == c then 0
    else
      var k := FirstIndexOf(s[1..], c);
      assert s[..k + 1] == [s[0]] + s[1..][..k];
      k + 1
  }

  /** `FirstIndexOf` is fixed by its contract. */
  lemma {:induction false} FirstIndexOfUnique(s: string, c: char, k: nat)
    requires k < |s| && s[k] == c && c !in s[..k]
    ensures FirstIndexOf(s, c) == k
    decreases k
  {
    if k > 0 {
      assert s[0] in s[..k];
      assert s[1..][..k - 1] == s[1..k];
      assert forall x :: x in s[1..k] ==> x in s[..k];
      FirstIndexOfUnique(s[1..], c, k - 1);
    }
  }

  /** Length of the longest suffix of `s` made of characters satisfying `space`. */
  function TrailingCount(s: string, space: char -> bool): (k: nat)
    ensures k <= |s|
    ensures forall j :: |s| - k <= j < |s| ==> space(s[j])
    ensures k == |s| || !space(s[|s| - 1 - k])
  {
    if |s| > 0 && space(s[|s| - 1]) then 1 + TrailingCount(s[..|s| - 1], space) else 0
  }

  /** Removes the leading and trailing characters that satisfy `space`
      (`str::trim`, `String.prototype.trim`). The result is blank exactly when
      every character of `s` is a space; otherwise it is `s` without its
      leading and trailing space runs, and starts and ends with a non-space. */
  function Trim(s: string, space: char -> bool): (r: string)
    ensures r == [] <==> forall j :: 0 <= j < |s| ==> space(s[j])
    ensures r != [] ==> !space(r[0]) && !space(r[|r| - 1])
    ensures r != [] ==> LeadingCount(s, space) < |s| - TrailingCount(s, space)
                        && r == s[LeadingCount(s, space)..|s| - TrailingCount(s, space)]
  {
    var k := LeadingCount(s, space);
    var a := s[k..];
    var m := TrailingCount(a, space);
    var r := a[..|a| - m];
    assert r == [] ==> forall j :: 0 <= j < |s| ==> space(s[j]) by {
      if r == [] {
        assert k == |s|;
      }
    }
    assert r != [] ==> m == TrailingCount(s, space) by {
      if r != [] {
        TrailingAfterLeading(s, k, space);
      }
    }
    r
  }

  lemma {:induction false} TrailingAfterLeading(s: string, k: nat, space: char -> bool)
    requires k <= |s| && TrailingCount(s[k..], space) < |s| - k
    ensures TrailingCount(s[k..], space) == TrailingCount(s, space)
    decreases |s|
  {
    var a := s[k..];
    if |a| > 0 && space(a[|a| - 1]) {
      assert s[..|s| - 1][k..] == a[..|a| - 1];
      TrailingAfterLeading(s[..|s| - 1], k, space);
    }
  }
}
