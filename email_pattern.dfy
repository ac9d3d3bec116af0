/**
 * The mention pattern `@\w+@\w+\.\w+` of the outgoing-message code, as a
 * scanner. Which characters `\w` accepts (Unicode word characters in
 * Python 3) is left abstract as a predicate `w`; the pattern only needs that
 * neither `@` nor `.` is a word character. Then every greedy `\w+` run
 * stops at the end of the maximal run of word characters and never has to
 * give characters back, so a match is `@`, a maximal run, `@`, a maximal
 * run, `.`, a maximal run, each run non-empty.
 */
module EmailPattern {
  import opened Wrappers

  /** What the pattern needs of `\w`: `@` and `.` are not word characters. */
  predicate ValidWordClass(w: char -> bool)
  {
    !w('@') && !w('.')
  }

  /** Every character of `s[lo..hi]` is a word character. */
  predicate AllWord(w: char -> bool, s: string, lo: nat, hi: nat)
    requires lo <= hi <= |s|
  {
    forall k :: lo <= k < hi ==> w(s[k])
  }

  /** Where the maximal run of word characters starting at `i` ends. */
  function RunEnd(w: char -> bool, s: string, i: nat): (j: nat)
    requires i <= |s|
    ensures i <= j <= |s|
    ensures AllWord(w, s, i, j)
    ensures j == |s| || !w(s[j])
    decreases |s| - i
  {
    if i < |s| && w(s[i]) then RunEnd(w, s, i + 1) else i
  }

  /**
   * A match `s[start..end]`: `s[start..at]` is group 1 (`@local`),
   * `s[at]` the second `@`, `s[dot]` the `.` before the last run.
   */
  datatype Span = Span(start: nat, at: nat, dot: nat, end: nat)

  /** `s[sp.start..sp.end]` is a word of the language `@\w+@\w+\.\w+`, split as `sp` says. */
  predicate Matches(w: char -> bool, s: string, sp: Span)
  {
    sp.start + 1 < sp.at && sp.at + 1 < sp.dot && sp.dot + 1 < sp.end <= |s| &&
    s[sp.start] == '@' && s[sp.at] == '@' && s[sp.dot] == '.' &&
    AllWord(w, s, sp.start + 1, sp.at) && AllWord(w, s, sp.at + 1, sp.dot) &&
    AllWord(w, s, sp.dot + 1, sp.end)
  }

  /** The regular-expression engine's attempt to match the pattern at index `i`. */
  function MatchAt(w: char -> bool, s: string, i: nat): (m: Option<Span>)
    requires i <= |s|
    ensures m.Some? ==> m.value.start == i && Matches(w, s, m.value)
  {
    if i < |s| && s[i] == '@' then
      var at := RunEnd(w, s, i + 1);
      if at > i + 1 && at < |s| && s[at] == '@' then
        var dot := RunEnd(w, s, at + 1);
        if dot > at + 1 && dot < |s| && s[dot] == '.' then
          var end := RunEnd(w, s, dot + 1);
          if end > dot + 1 then Some(Span(i, at, dot, end)) else None
        else None
      else None
    else None
  }

  /** A run of word characters followed by a non-word character, or by the end of the text, ends exactly there. */
  lemma RunEndAt(w: char -> bool, s: string, lo: nat, hi: nat)
    requires lo <= hi <= |s| && AllWord(w, s, lo, hi) && (hi == |s| || !w(s[hi]))
    ensures RunEnd(w, s, lo) == hi
  {
  }

  /**
   * `MatchAt` is the engine's greedy answer: it finds a match at `i`
   * whenever the pattern matches there at all, its two `@`/`.` splits are
   * the only possible ones, and no match at `i` is longer than it.
   */
  lemma MatchAtGreedy(w: char -> bool, s: string, i: nat, sp: Span)
    requires ValidWordClass(w) && i <= |s|
    requires sp.start == i && Matches(w, s, sp)
    ensures MatchAt(w, s, i).Some?
    ensures MatchAt(w, s, i).value.at == sp.at && MatchAt(w, s, i).value.dot == sp.dot
    ensures sp.end <= MatchAt(w, s, i).value.end
  {
    RunEndAt(w, s, i + 1, sp.at);
    RunEndAt(w, s, sp.at + 1, sp.dot);
  }

  /** `MatchAt` finds nothing exactly when the pattern matches nowhere at `i`. */
  lemma MatchAtNone(w: char -> bool, s: string, i: nat)
    requires ValidWordClass(w) && i <= |s|
    ensures MatchAt(w, s, i).None? <==> forall sp: Span :: sp.start == i ==> !Matches(w, s, sp)
  {
    if MatchAt(w, s, i).None? {
      forall sp: Span | sp.start == i ensures !Matches(w, s, sp) {
        if Matches(w, s, sp) {
          MatchAtGreedy(w, s, i, sp);
        }
      }
    }
  }

  /**
   * `re.findall`: the matches found scanning from index `i`, left to right;
   * the scan resumes at the end of each match and moves one character on
   * after each position where nothing matches.
   */
  function FindAll(w: char -> bool, s: string, i: nat): (r: seq<Span>)
    requires i <= |s|
    ensures forall k :: 0 <= k < |r| ==> i <= r[k].start && Matches(w, s, r[k])
    ensures forall k :: 0 <= k < |r| - 1 ==> r[k].end <= r[k + 1].start
    decreases |s| - i
  {
    if i == |s| then []
    else match MatchAt(w, s, i)
      case Some(sp) => [sp] + FindAll(w, s, sp.end)
      case None => FindAll(w, s, i + 1)
  }

  /** Index `p` lies inside one of the spans. */
  predicate Covered(r: seq<Span>, p: nat)
  {
    |r| > 0 && (r[0].start <= p < r[0].end || Covered(r[1..], p))
  }

  /** Every match the scan reports is the engine's own answer at that position. */
  lemma {:induction false} FindAllReported(w: char -> bool, s: string, i: nat)
    requires i <= |s|
    ensures forall k :: 0 <= k < |FindAll(w, s, i)| ==>
      MatchAt(w, s, FindAll(w, s, i)[k].start) == Some(FindAll(w, s, i)[k])
    decreases |s| - i
  {
    if i < |s| {
      match MatchAt(w, s, i)
      case Some(sp) =>
        FindAllReported(w, s, sp.end);
        var rest := FindAll(w, s, sp.end);
        assert FindAll(w, s, i) == [sp] + rest;
      case None =>
        FindAllReported(w, s, i + 1);
    }
  }

  /**
   * The scan is leftmost: the engine finds nothing at any position from
   * `i` on that no reported match covers.
   */
  lemma FindAllLeftmost(w: char -> bool, s: string, i: nat)
    requires i <= |s|
    ensures forall p :: i <= p <= |s| && !Covered(FindAll(w, s, i), p) ==> MatchAt(w, s, p).None?
  {
    LeftmostHolds(w, s, i);
  }

  /** The statement of `FindAllLeftmost`, as one predicate for the induction. */
  ghost predicate LeftmostFrom(w: char -> bool, s: string, i: nat)
    requires i <= |s|
  {
    forall p :: i <= p <= |s| && !Covered(FindAll(w, s, i), p) ==> MatchAt(w, s, p).None?
  }

  lemma {:induction false} LeftmostHolds(w: char -> bool, s: string, i: nat)
    requires i <= |s|
    ensures LeftmostFrom(w, s, i)
    decreases |s| - i
  {
    if i == |s| {
      assert MatchAt(w, s, |s|).None?;
    } else {
      match MatchAt(w, s, i)
      case Some(sp) =>
        LeftmostHolds(w, s, sp.end);
        LeftmostAfterMatch(w, s, i, sp);
      case None =>
        LeftmostHolds(w, s, i + 1);
        LeftmostAfterMiss(w, s, i);
    }
  }

  /** A match at `i` covers everything up to its end, where the scan goes on. */
  lemma LeftmostAfterMatch(w: char -> bool, s: string, i: nat, sp: Span)
    requires i < |s| && MatchAt(w, s, i) == Some(sp) && LeftmostFrom(w, s, sp.end)
    ensures LeftmostFrom(w, s, i)
  {
    var r, rest := FindAll(w, s, i), FindAll(w, s, sp.end);
    assert r == [sp] + rest;
    assert r[0] == sp && r[1..] == rest;
    forall p | i <= p <= |s| && !Covered(r, p)
      ensures MatchAt(w, s, p).None?
    {
      assert !(sp.start <= p < sp.end) && !Covered(rest, p);
    }
  }

  /** No match at `i`: the scan goes on at `i + 1`. */
  lemma LeftmostAfterMiss(w: char -> bool, s: string, i: nat)
    requires i < |s| && MatchAt(w, s, i).None? && LeftmostFrom(w, s, i + 1)
    ensures LeftmostFrom(w, s, i)
  {
    var r := FindAll(w, s, i);
    assert r == FindAll(w, s, i + 1);
    forall p | i <= p <= |s| && !Covered(r, p)
      ensures MatchAt(w, s, p).None?
    {
      if p > i {
        assert !Covered(FindAll(w, s, i + 1), p);
      }
    }
  }

  /** The strings `re.findall` returns: the text of every match, in order. */
  function Emails(w: char -> bool, s: string): (es: seq<string>)
  {
    var r := FindAll(w, s, 0);
    seq(|r|, k requires 0 <= k < |r| => s[r[k].start..r[k].end])
  }

  /**
   * `re.sub(pattern, r'\1', t)` scanning from index `i`: every match is
   * replaced by its group 1, everything else is copied.
   */
  function SubGroup1(w: char -> bool, t: string, i: nat): string
    requires i <= |t|
    decreases |t| - i
  {
    if i == |t| then ""
    else match MatchAt(w, t, i)
      case Some(sp) => t[sp.start..sp.at] + SubGroup1(w, t, sp.end)
      case None => [t[i]] + SubGroup1(w, t, i + 1)
  }

  /** The shorthand of one email: `re.sub(r'(@\w+)@\w+\.\w+', r'\1', e)`. */
  function Shorthand(w: char -> bool, e: string): string
  {
    SubGroup1(w, e, 0)
  }

  /** One shorthand per email, in the same order. */
  function Shorthands(w: char -> bool, emails: seq<string>): (ss: seq<string>)
    ensures |ss| == |emails|
  {
    seq(|emails|, k requires 0 <= k < |emails| => Shorthand(w, emails[k]))
  }

  /**
   * The shorthand of a matched email is its group 1, `@` followed by the
   * local part: a proper prefix of the email, which continues with `@`.
   */
  lemma ShorthandOfMatch(w: char -> bool, s: string, sp: Span)
    requires ValidWordClass(w) && Matches(w, s, sp)
    ensures Shorthand(w, s[sp.start..sp.end]) == s[sp.start..sp.at]
  {
    var e := s[sp.start..sp.end];
    var at := sp.at - sp.start;
    var local := Span(0, at, sp.dot - sp.start, |e|);
    assert Matches(w, e, local) by {
      assert forall k :: 0 <= k < |e| ==> e[k] == s[sp.start + k];
    }
    assert MatchAt(w, e, 0) == Some(local) by {
      MatchAtGreedy(w, e, 0, local);
    }
    assert Shorthand(w, e) == e[0..at] + SubGroup1(w, e, |e|);
    assert e[0..at] == s[sp.start..sp.at];
  }

  /**
   * The `k`-th email found in `s` and its shorthand: the shorthand is `@`
   * plus the local part, a proper prefix of the email, which goes on with
   * `@`. So the email without its leading `@` is `local@domain.tld`, not
   * the bare local part.
   */
  lemma EmailShorthandAt(w: char -> bool, s: string, k: nat)
    requires ValidWordClass(w) && k < |Emails(w, s)|
    ensures var e, sh := Emails(w, s)[k], Shorthands(w, Emails(w, s))[k];
      2 <= |sh| < |e| && sh == e[..|sh|] && sh[0] == '@' && e[|sh|] == '@' &&
      e[1..] == sh[1..] + e[|sh|..]
  {
    var sp := FindAll(w, s, 0)[k];
    assert Matches(w, s, sp);
    ShorthandOfMatch(w, s, sp);
    MatchedEmailShape(s, sp.start, sp.at, sp.end);
  }

  /** An email `s[start..end]` with its second `@` at `at`, and the prefix before that `@`. */
  lemma MatchedEmailShape(s: string, start: nat, at: nat, end: nat)
    requires start + 1 < at < end <= |s| && s[start] == '@' && s[at] == '@'
    ensures var e, sh := s[start..end], s[start..at];
      2 <= |sh| < |e| && sh == e[..|sh|] && sh[0] == '@' && e[|sh|] == '@' &&
      e[1..] == sh[1..] + e[|sh|..]
  {
    var e, sh := s[start..end], s[start..at];
    assert e[..|sh|] == sh;
    assert e[1..] == sh[1..] + e[|sh|..] by {
      assert e[1..] == s[start + 1..end];
      assert sh[1..] == s[start + 1..at];
      assert e[|sh|..] == s[at..end];
    }
  }

  /** The scan passes over a stretch without `@` without finding anything. */
  lemma {:induction false} FindAllSkip(w: char -> bool, s: string, i: nat, j: nat)
    requires i <= j <= |s| && '@' !in s[i..j]
    ensures FindAll(w, s, i) == FindAll(w, s, j)
    decreases j - i
  {
    if i < j {
      assert s[i] == s[i..j][0];
      assert s[i + 1..j] == s[i..j][1..];
      FindAllSkip(w, s, i + 1, j);
    }
  }
}
