/**
 * The few Python `str` operations the client relies on: `startswith`, `find`,
 * `replace` and `join`, each with the meaning Python gives it.
 */
module Strings {

  /** `t` occurs in `s` at index `k`. */
  predicate OccursAt(s: string, t: string, k: int)
  {
    0 <= k && k + |t| <= |s| && s[k..k + |t|] == t
  }

  /** Python's `s.startswith(t)`. */
  predicate StartsWith(s: string, t: string)
  {
    OccursAt(s, t, 0)
  }

  /** The search behind `s.find(t)`, started at index `i`. */
  function FindFrom(s: string, t: string, i: nat): (r: int)
    requires i <= |s|
    ensures r == -1 || (i <= r && OccursAt(s, t, r))
    ensures r == -1 ==> forall k {:trigger OccursAt(s, t, k)} :: i <= k ==> !OccursAt(s, t, k)
    ensures r != -1 ==> forall k {:trigger OccursAt(s, t, k)} :: i <= k < r ==> !OccursAt(s, t, k)
    decreases |s| - i
  {
    if i + |t| > |s| then -1
    else if s[i..i + |t|] == t then i
    else if i == |s| then -1
    else FindFrom(s, t, i + 1)
  }

  /** Python's `s.find(t)`: the lowest index where `t` occurs in `s`, or -1 when it occurs nowhere. */
  function Find(s: string, t: string): (r: int)
    ensures -1 <= r
    ensures r == -1 <==> forall k {:trigger OccursAt(s, t, k)} :: !OccursAt(s, t, k)
    ensures r != -1 ==> OccursAt(s, t, r) && forall k {:trigger OccursAt(s, t, k)} :: 0 <= k < r ==> !OccursAt(s, t, k)
  {
    FindFrom(s, t, 0)
  }

  /** `s.replace("", rep)`: `rep` inserted before every character and at the end. */
  function Interleave(s: string, rep: string): string
  {
    if s == [] then rep else rep + [s[0]] + Interleave(s[1..], rep)
  }

  /**
   * Python's `s.replace(pat, rep)`: every occurrence of `pat`, found left to
   * right and never overlapping, is replaced by `rep`.
   */
  function ReplaceAll(s: string, pat: string, rep: string): string
    decreases |s|
  {
    if |pat| == 0 then Interleave(s, rep)
    else if |s| < |pat| then s
    else if s[..|pat|] == pat then rep + ReplaceAll(s[|pat|..], pat, rep)
    else [s[0]] + ReplaceAll(s[1..], pat, rep)
  }

  /** Python's `sep.join(xs)`. */
  function Join(sep: string, xs: seq<string>): string
    decreases |xs|
  {
    if |xs| == 0 then ""
    else if |xs| == 1 then xs[0]
    else xs[0] + sep + Join(sep, xs[1..])
  }

  /** `t` occurs in the tail of `s` at `k` exactly when it occurs in `s` at `k + 1`. */
  lemma OccursInTail(s: string, t: string, k: nat)
    requires |s| > 0
    ensures OccursAt(s, t, k + 1) <==> OccursAt(s[1..], t, k)
  {
    if k + 1 + |t| <= |s| {
      assert s[k + 1..k + 1 + |t|] == s[1..][k..k + |t|];
    }
  }

  /**
   * `replace` at the first occurrence of `pat` (the index `find` returns):
   * everything before it is kept, that occurrence becomes `rep`, and the
   * rest is replaced likewise.
   */
  lemma ReplaceAllFirst(s: string, pat: string, rep: string, k: nat)
    requires |pat| > 0 && OccursAt(s, pat, k)
    requires forall j :: 0 <= j < k ==> !OccursAt(s, pat, j)
    ensures ReplaceAll(s, pat, rep) == s[..k] + rep + ReplaceAll(s[k + |pat|..], pat, rep)
  {
    ReplaceAllFromTo(s, pat, rep, 0, k);
    assert s[0..] == s && s[0..k] == s[..k];
  }

  /** `replace` leaves a string in which `pat` never occurs unchanged. */
  lemma {:induction false} ReplaceAllNone(s: string, pat: string, rep: string)
    requires |pat| > 0
    requires forall k :: 0 <= k ==> !OccursAt(s, pat, k)
    ensures ReplaceAll(s, pat, rep) == s
    decreases |s|
  {
    if |s| >= |pat| {
      assert !OccursAt(s, pat, 0);
      forall k | 0 <= k
        ensures !OccursAt(s[1..], pat, k)
      {
        OccursInTail(s, pat, k);
      }
      ReplaceAllNone(s[1..], pat, rep);
      ReplaceAllSkip(s, pat, rep);
      assert [s[0]] + s[1..] == s;
    }
  }

  /**
   * `replace` on the suffix from `i` keeps what precedes the first
   * occurrence of `pat` at or after `i` and replaces that occurrence.
   */
  lemma {:induction false} ReplaceAllFromTo(s: string, pat: string, rep: string, i: nat, k: nat)
    requires |pat| > 0 && i <= k && OccursAt(s, pat, k)
    requires forall j :: i <= j < k ==> !OccursAt(s, pat, j)
    ensures ReplaceAll(s[i..], pat, rep) == s[i..k] + rep + ReplaceAll(s[k + |pat|..], pat, rep)
    decreases k - i
  {
    var suffix := s[i..];
    if i == k {
      assert suffix[..|pat|] == s[k..k + |pat|];
      assert suffix[|pat|..] == s[k + |pat|..];
      assert s[i..k] == [];
    } else {
      ReplaceAllFromTo(s, pat, rep, i + 1, k);
      assert !OccursAt(s, pat, i);
      assert suffix[..|pat|] == s[i..i + |pat|];
      ReplaceAllSkip(suffix, pat, rep);
      assert suffix[1..] == s[i + 1..];
      assert [s[i]] + s[i + 1..k] == s[i..k];
      Prepend(ReplaceAll(suffix, pat, rep), ReplaceAll(s[i + 1..], pat, rep), s[i], s[i + 1..k], rep,
        ReplaceAll(s[k + |pat|..], pat, rep), s[i..k]);
    }
  }

  /** `replace` on a string that does not start with `pat` keeps its first character. */
  lemma ReplaceAllSkip(s: string, pat: string, rep: string)
    requires |pat| > 0 && |s| >= |pat| && s[..|pat|] != pat
    ensures ReplaceAll(s, pat, rep) == [s[0]] + ReplaceAll(s[1..], pat, rep)
  {
  }

  /** A string that is `c` followed by `a + b + d` is `e + b + d` when `[c] + a` is `e`. */
  lemma Prepend(x: string, y: string, c: char, a: string, b: string, d: string, e: string)
    requires x == [c] + y && y == a + b + d && [c] + a == e
    ensures x == e + b + d
  {
  }

  /** Joining one more element adds the separator and that element. */
  lemma {:induction false} JoinSnoc(sep: string, xs: seq<string>, x: string)
    requires |xs| > 0
    ensures Join(sep, xs + [x]) == Join(sep, xs) + sep + x
    decreases |xs|
  {
    if |xs| == 1 {
      assert (xs + [x])[1..] == [x];
    } else {
      assert (xs + [x])[1..] == xs[1..] + [x];
      JoinSnoc(sep, xs[1..], x);
    }
  }

  /** A string in which the first character of `t` does not occur does not contain `t`. */
  lemma FindAbsent(s: string, t: string)
    requires |t| > 0 && t[0] !in s
    ensures Find(s, t) == -1
  {
  }

  /** `t` occurring at `p`, with its first character nowhere before `p`, is found at `p`. */
  lemma FindFirst(s: string, t: string, p: nat)
    requires |t| > 0 && OccursAt(s, t, p) && t[0] !in s[..p]
    ensures Find(s, t) == p
  {
  }
}
