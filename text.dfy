/**
 * PHP's `str_replace(search, replace, subject)` for one search string: the subject is
 * scanned left to right and every non-overlapping occurrence of `search` is replaced.
 * An empty search string leaves the subject unchanged.
 */
module Text {

  /** `pat` occurs in `s` starting at index `i`. */
  predicate IsAt(s: string, pat: string, i: int)
  {
    0 <= i && i + |pat| <= |s| && s[i..i + |pat|] == pat
  }

  /** `pat` occurs somewhere in `s`. */
  ghost predicate Occurs(s: string, pat: string)
  {
    exists i :: IsAt(s, pat, i)
  }

  /** The replacement performed by `str_replace`. */
  function Replace(s: string, pat: string, rep: string): string
    decreases |s|
  {
    if |pat| == 0 || |s| < |pat| then s
    else if s[..|pat|] == pat then rep + Replace(s[|pat|..], pat, rep)
    else [s[0]] + Replace(s[1..], pat, rep)
  }

  /** The number of occurrences `Replace` rewrites (non-overlapping, leftmost first). */
  function Occurrences(s: string, pat: string): nat
    decreases |s|
  {
    if |pat| == 0 || |s| < |pat| then 0
    else if s[..|pat|] == pat then 1 + Occurrences(s[|pat|..], pat)
    else Occurrences(s[1..], pat)
  }

  /** An occurrence in the tail of `s` is an occurrence in `s`, one position further on. */
  lemma TailOccurrence(s: string, pat: string, i: int)
    requires |s| > 0 && IsAt(s[1..], pat, i)
    ensures IsAt(s, pat, i + 1)
  {
    assert s[i + 1..i + 1 + |pat|] == s[1..][i..i + |pat|];
  }

  /** A subject without the search string is returned unchanged. */
  lemma {:induction false} ReplaceAbsent(s: string, pat: string, rep: string)
    requires !Occurs(s, pat)
    ensures Replace(s, pat, rep) == s
    ensures Occurrences(s, pat) == 0
    decreases |s|
  {
    assert !IsAt(s, pat, 0);
    if |s| >= |pat| {
      assert s[..|pat|] != pat by { assert s[0..0 + |pat|] == s[..|pat|]; }
      forall i | IsAt(s[1..], pat, i)
        ensures false
      {
        TailOccurrence(s, pat, i);
      }
      ReplaceAbsent(s[1..], pat, rep);
    }
  }

  /**
   * When no occurrence of `pat` starts inside `u`, the first occurrence in `u + pat + v` is
   * the one right after `u`: it is replaced, and the scan carries on in `v`. A search string
   * whose first character does not recur in it cannot overlap its own start, so no
   * occurrence begins inside `u` and ends inside the `pat` that follows.
   */
  lemma {:induction false} ReplaceNext(u: string, pat: string, v: string, rep: string)
    requires |pat| > 0 && pat[0] !in pat[1..]
    requires !Occurs(u, pat)
    ensures Replace(u + pat + v, pat, rep) == u + rep + Replace(v, pat, rep)
    decreases |u|
  {
    if u == [] {
      assert u + pat + v == pat + v;
      ReplaceHit(pat, v, rep);
    } else {
      var s, t := u + pat + v, u[1..];
      NotAtStart(u, pat, v);
      ReplaceSkip(s, pat, rep);
      NoTailOccurrence(u, pat);
      assert s[0] == u[0] && s[1..] == t + pat + v;
      ReplaceNext(t, pat, v, rep);
      var r := Replace(v, pat, rep);
      assert Replace(s, pat, rep) == [u[0]] + (t + rep + r);
      assert [u[0]] + (t + rep + r) == ([u[0]] + t) + rep + r;
      assert [u[0]] + t == u;
    }
  }

  /** A subject that starts with `pat` has it replaced, and the scan goes on after it. */
  lemma ReplaceHit(pat: string, v: string, rep: string)
    requires |pat| > 0
    ensures Replace(pat + v, pat, rep) == rep + Replace(v, pat, rep)
  {
    assert (pat + v)[..|pat|] == pat && (pat + v)[|pat|..] == v;
  }

  /** A subject that does not start with `pat` keeps its first character. */
  lemma ReplaceSkip(s: string, pat: string, rep: string)
    requires |pat| > 0 && |s| >= |pat| && s[..|pat|] != pat
    ensures Replace(s, pat, rep) == [s[0]] + Replace(s[1..], pat, rep)
  {
  }

  /** No occurrence of `pat` starts at the beginning of `u + pat + v` when `u` is not empty. */
  lemma NotAtStart(u: string, pat: string, v: string)
    requires |pat| > 0 && pat[0] !in pat[1..]
    requires !Occurs(u, pat) && u != []
    ensures (u + pat + v)[..|pat|] != pat
  {
    var s := u + pat + v;
    assert !IsAt(u, pat, 0);
    if |u| >= |pat| {
      assert s[..|pat|] == u[..|pat|] == u[0..0 + |pat|];
    } else {
      assert s[..|pat|][|u|] == pat[0];
      assert pat[|u|] == pat[1..][|u| - 1];
    }
  }

  /** A subject without `pat` has a tail without `pat`. */
  lemma NoTailOccurrence(u: string, pat: string)
    requires !Occurs(u, pat) && u != []
    ensures !Occurs(u[1..], pat)
  {
    forall i | IsAt(u[1..], pat, i)
      ensures false
    {
      TailOccurrence(u, pat, i);
    }
  }

  /** Every rewritten occurrence changes the length by `|rep| - |pat|` and nothing else does. */
  lemma {:induction false} ReplaceLength(s: string, pat: string, rep: string)
    ensures |Replace(s, pat, rep)| == |s| + Occurrences(s, pat) * (|rep| - |pat|)
    decreases |s|
  {
    var d := |rep| - |pat|;
    if |pat| == 0 || |s| < |pat| {
    } else if s[..|pat|] == pat {
      var t := s[|pat|..];
      ReplaceLength(t, pat, rep);
      var k := Occurrences(t, pat);
      assert Replace(s, pat, rep) == rep + Replace(t, pat, rep);
      assert Occurrences(s, pat) == 1 + k;
      MulSucc(k, d);
    } else {
      ReplaceLength(s[1..], pat, rep);
    }
  }

  lemma MulSucc(k: int, d: int)
    ensures (1 + k) * d == k * d + d
  {
  }

  /** A subject that is exactly the search string becomes exactly the replacement. */
  lemma ReplaceWhole(pat: string, rep: string)
    requires |pat| > 0
    ensures Replace(pat, pat, rep) == rep
  {
    assert pat[..|pat|] == pat;
    assert pat[|pat|..] == [];
  }
}
