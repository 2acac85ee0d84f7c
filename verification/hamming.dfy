/** Hamming distance: the number of positions at which two equally long
    strings differ. It is what the mismatch counter of the scanning loop
    counts. */
module Hamming {

  /** Mismatches between `s` and `p` at the positions `i..|s|-1`. */
  function Mismatches(s: string, p: string, i: nat): (d: nat)
    requires |s| == |p|
    requires i <= |s|
    ensures d <= |s| - i
    decreases |s| - i
  {
    if i == |s| then 0
    else (if s[i] != p[i] then 1 else 0) + Mismatches(s, p, i + 1)
  }

  /** Mismatches between `s` and `p` over their whole length. */
  function Distance(s: string, p: string): (d: nat)
    requires |s| == |p|
    ensures d <= |s|
  {
    Mismatches(s, p, 0)
  }

  /** Distance zero means the strings are equal, and conversely. */
  lemma ZeroIffEqual(s: string, p: string)
    requires |s| == |p|
    ensures Distance(s, p) == 0 <==> s == p
  {
    if s == p {
      NoMismatchesFrom(s, p, 0);
    } else {
      var q :| 0 <= q < |s| && s[q] != p[q];
      SuffixBound(s, p, q);
    }
  }

  /** Equal suffixes have no mismatches. */
  lemma {:induction false} NoMismatchesFrom(s: string, p: string, i: nat)
    requires |s| == |p|
    requires i <= |s|
    requires s[i..] == p[i..]
    ensures Mismatches(s, p, i) == 0
    decreases |s| - i
  {
    if i < |s| {
      assert s[i] == s[i..][0] == p[i..][0] == p[i];
      assert s[i + 1..] == s[i..][1..];
      assert p[i + 1..] == p[i..][1..];
      NoMismatchesFrom(s, p, i + 1);
    }
  }

  /** Mismatches counted on a suffix are a lower bound for the whole
      strings. */
  lemma {:induction false} SuffixBound(s: string, p: string, i: nat)
    requires |s| == |p|
    requires i <= |s|
    ensures Mismatches(s, p, i) <= Distance(s, p)
    decreases i
  {
    if i > 0 {
      SuffixBound(s, p, i - 1);
    }
  }

  /** Counting over a longer suffix never finds fewer mismatches: the
      count only grows as the comparison moves left. */
  lemma {:induction false} MismatchesMonotone(s: string, p: string, i: nat, i': nat)
    requires |s| == |p|
    requires i <= i' <= |s|
    ensures Mismatches(s, p, i') <= Mismatches(s, p, i)
    decreases i' - i
  {
    if i < i' {
      MismatchesMonotone(s, p, i + 1, i');
    }
  }
}
