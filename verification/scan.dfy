/** The scanning phase of `appx_search` (BMAppx.java:124-157): a window of
    length `m` slides over the text; each window is compared right to left,
    counting mismatches and narrowing the shift from the table `dk`. */
module Scan {
  import opened Wrappers
  import opened Tables
  import opened Hamming

  /** A reported match: the window's start offset in the text and the
      window itself (the source's `Tuple<Integer, String>`). */
  datatype Match = Match(offset: int, window: string)

  function Min(a: int, b: int): int
  {
    if a <= b then a else b
  }

  /** What scanning needs from the shift table: every lookup
      `dk.get(i, c)` the loop can make, with `i >= m-k` and `c` a character
      of the text, yields a value (never the Java `null`); depth `m-k` is
      the untouched default `m+1` and the trailing depths hold shifts in
      `[1, m]`. */
  ghost predicate ScanReady(text: string, m: int, k: int, dk: Table<int, char, int>)
  {
    && (forall c :: c in text ==> dk.Get(m - k, c) == Some(m + 1))
    && (forall i, c :: m - k < i <= m && c in text ==>
          dk.Get(i, c).Some? && 1 <= dk.Get(i, c).value <= m)
  }

  /** A lookup of the scanning loop yields a value, and which one. */
  lemma LookupDefined(text: string, m: int, k: int, dk: Table<int, char, int>, i: int, h: int)
    requires ScanReady(text, m, k, dk)
    requires m - k <= i <= m
    requires 0 <= h < |text|
    ensures dk.Get(i, text[h]).Some?
    ensures i == m - k ==> dk.Get(i, text[h]).value == m + 1
    ensures i > m - k ==> 1 <= dk.Get(i, text[h]).value <= m
  {
    assert text[h] in text;
  }

  /** The verdict of the inner loop once it stops: either every position
      was compared, or the mismatches of the compared suffix already exceed
      the budget. */
  lemma WindowVerdict(w: string, pattern: string, k: int, i: nat, neq: int)
    requires |w| == |pattern|
    requires i <= |w|
    requires neq == Mismatches(w, pattern, i)
    requires i == 0 || neq > k
    ensures neq <= k <==> Distance(w, pattern) <= k
    ensures neq <= k ==> neq == Distance(w, pattern)
  {
    if neq > k {
      SuffixBound(w, pattern, i);
    }
  }

  /** The shift the window ending at `j` settles on, counted over the
      depths `i..m`: it starts at `m-k` and is lowered to the smallest
      lookup at every depth the inner loop consults. A depth `i` is
      consulted when it is at least 1 and at least `m-k`, and the suffix
      of the window at positions `i..m-1` has at most `k` mismatches, so
      the comparison has not stopped before reaching it. The lookup at
      depth `i` is `dk.get(i, text[h])` with `h = j-m+i` (BMAppx.java:139),
      one position right of the character compared there; under
      `ScanReady` it always holds a value. */
  ghost function ShiftFrom(text: string, pattern: string, k: int, dk: Table<int, char, int>, j: int, i: int): int
    requires ScanReady(text, |pattern|, k, dk)
    requires |pattern| <= j < |text|
    decreases |pattern| - i
  {
    var m := |pattern|;
    if i > m then m - k
    else
      var rest := ShiftFrom(text, pattern, k, dk, j, i + 1);
      if i >= 1 && i >= m - k && Mismatches(text[j - m..j], pattern, i) <= k then
        LookupDefined(text, m, k, dk, i, j - m + i);
        Min(rest, dk.Get(i, text[j - m + i]).value)
      else rest
  }

  /** One depth of the inner loop: a depth the comparison reaches lowers
      the shift to its lookup exactly when it is at least `m-k`. */
  lemma ShiftStep(text: string, pattern: string, k: int, dk: Table<int, char, int>, j: int, i: int)
    requires k <= |pattern|
    requires ScanReady(text, |pattern|, k, dk)
    requires |pattern| <= j < |text|
    requires 1 <= i <= |pattern|
    requires Mismatches(text[j - |pattern|..j], pattern, i) <= k
    ensures i >= |pattern| - k ==> dk.Get(i, text[j - |pattern| + i]).Some?
    ensures ShiftFrom(text, pattern, k, dk, j, i)
            == if i >= |pattern| - k
               then Min(ShiftFrom(text, pattern, k, dk, j, i + 1), dk.Get(i, text[j - |pattern| + i]).value)
               else ShiftFrom(text, pattern, k, dk, j, i + 1)
  {
    if i >= |pattern| - k {
      LookupDefined(text, |pattern|, k, dk, i, j - |pattern| + i);
    }
  }

  /** Depths below the point where the comparison stopped are never
      consulted. */
  lemma {:induction false} SkipUnconsulted(text: string, pattern: string, k: int, dk: Table<int, char, int>,
                                           j: int, lo: int, i: int)
    requires ScanReady(text, |pattern|, k, dk)
    requires |pattern| <= j < |text|
    requires 1 <= lo <= i + 1 && i <= |pattern|
    requires 0 <= i && Mismatches(text[j - |pattern|..j], pattern, i) > k
    ensures ShiftFrom(text, pattern, k, dk, j, lo) == ShiftFrom(text, pattern, k, dk, j, i + 1)
    decreases i + 1 - lo
  {
    if lo <= i {
      MismatchesMonotone(text[j - |pattern|..j], pattern, lo, i);
      SkipUnconsulted(text, pattern, k, dk, j, lo + 1, i);
    }
  }

  /** The shift never exceeds `m-k`; it is 0 when `k == m` (every consulted
      lookup is positive but `d` starts at 0) and at least 1 otherwise. */
  lemma {:induction false} ShiftBounds(text: string, pattern: string, k: int, dk: Table<int, char, int>, j: int, i: int)
    requires k <= |pattern|
    requires ScanReady(text, |pattern|, k, dk)
    requires |pattern| <= j < |text|
    requires 1 <= i
    ensures ShiftFrom(text, pattern, k, dk, j, i) <= |pattern| - k
    ensures if k == |pattern| then ShiftFrom(text, pattern, k, dk, j, i) == 0
            else ShiftFrom(text, pattern, k, dk, j, i) >= 1
    decreases |pattern| - i
  {
    var m := |pattern|;
    if i <= m {
      ShiftBounds(text, pattern, k, dk, j, i + 1);
      var rest := ShiftFrom(text, pattern, k, dk, j, i + 1);
      if i >= m - k {
        LookupDefined(text, m, k, dk, i, j - m + i);
        assert 1 <= dk.Get(i, text[j - m + i]).value;
        assert ShiftFrom(text, pattern, k, dk, j, i) == rest
            || ShiftFrom(text, pattern, k, dk, j, i) == Min(rest, dk.Get(i, text[j - m + i]).value);
      } else {
        assert ShiftFrom(text, pattern, k, dk, j, i) == rest;
      }
    }
  }

  /** The shift `d` computed for the window ending at `j`
      (BMAppx.java:136-140), over all depths. It never exceeds `m-k`, and
      it is 0 exactly when `k == m`, which is when the scan advances by 1. */
  ghost function WindowShift(text: string, pattern: string, k: int, dk: Table<int, char, int>, j: int): (d: int)
    requires k <= |pattern|
    requires ScanReady(text, |pattern|, k, dk)
    requires |pattern| <= j < |text|
    ensures d <= |pattern| - k
    ensures if k == |pattern| then d == 0 else d >= 1
  {
    ShiftBounds(text, pattern, k, dk, j, 1);
    ShiftFrom(text, pattern, k, dk, j, 1)
  }

  /** With no mismatch budget the only depth consulted is `m`, whose lookup
      is the default `m+1`, so the shift is `m`. */
  lemma {:induction false} ZeroBudgetShift(text: string, pattern: string, dk: Table<int, char, int>, j: int, i: int)
    requires ScanReady(text, |pattern|, 0, dk)
    requires |pattern| <= j < |text|
    requires 1 <= i
    ensures ShiftFrom(text, pattern, 0, dk, j, i) == |pattern|
    decreases |pattern| - i
  {
    var m := |pattern|;
    if i <= m {
      ZeroBudgetShift(text, pattern, dk, j, i + 1);
      if i == m {
        LookupDefined(text, m, 0, dk, i, j);
      }
    }
  }

  /** One step of the inner loop at depth `i` (BMAppx.java:136-147): narrow
      the shift by the lookup at `text[h]` when `i >= m-k`, then compare
      `text[h-1]` with `pattern[i-1]`. The mismatch count and the shift
      then cover the depths from `i-1` and `i` upward. */
  method CompareDepth(text: string, pattern: string, k: int, dk: Table<int, char, int>, j: int,
                      i: int, neq: int, d: int)
    returns (neq': int, d': int)
    requires |pattern| <= j < |text|
    requires k <= |pattern|
    requires ScanReady(text, |pattern|, k, dk)
    requires 1 <= i <= |pattern|
    requires neq == Mismatches(text[j - |pattern|..j], pattern, i) <= k
    requires d == ShiftFrom(text, pattern, k, dk, j, i + 1)
    ensures neq' == Mismatches(text[j - |pattern|..j], pattern, i - 1)
    ensures d' == ShiftFrom(text, pattern, k, dk, j, i)
  {
    var m := |pattern|;
    var h := j - m + i;
    ShiftStep(text, pattern, k, dk, j, i);
    d' := d;
    if i >= m - k {
      d' := Min(d, dk.Get(i, text[h]).value);
    }
    ghost var w := text[j - m..j];
    assert w[i - 1] == text[h - 1];
    neq' := neq;
    if text[h - 1] != pattern[i - 1] {
      neq' := neq + 1;
    }
  }

  /** One window, ending just before text position `j`: the inner loop of
      BMAppx.java:132-148. The mismatch count `neq` is exact unless it
      exceeded `k`, in which case the comparison stopped early. The shift
      `d` starts at `m-k` and is narrowed by `dk.get(i, text[h])` at the
      depths `i >= m-k`; `text[h]` is one position right of the compared
      character `text[h-1]`. */
  method ScanWindow(text: string, pattern: string, k: int, dk: Table<int, char, int>, j: int)
    returns (neq: int, d: int)
    requires |pattern| <= j < |text|
    requires k <= |pattern|
    requires ScanReady(text, |pattern|, k, dk)
    ensures neq <= k <==> Distance(text[j - |pattern|..j], pattern) <= k
    ensures neq <= k ==> neq == Distance(text[j - |pattern|..j], pattern)
    ensures d == WindowShift(text, pattern, k, dk, j)
    ensures d <= |pattern| - k
    ensures if k == |pattern| then d == 0 else d >= 1
    ensures k == 0 ==> d == |pattern|
  {
    var m := |pattern|;
    ghost var w := text[j - m..j];
    var h := j;
    var i := m;
    neq := 0;
    d := m - k;
    while i > 0 && neq <= k
      invariant 0 <= i <= m
      invariant h == j - m + i
      invariant neq == Mismatches(w, pattern, i)
      invariant d == ShiftFrom(text, pattern, k, dk, j, i + 1)
    {
      neq, d := CompareDepth(text, pattern, k, dk, j, i, neq, d);
      i := i - 1;
      h := h - 1;
    }
    WindowVerdict(w, pattern, k, i, neq);
    if i > 0 {
      SkipUnconsulted(text, pattern, k, dk, j, 1, i);
    }
    if k == 0 {
      ZeroBudgetShift(text, pattern, dk, j, 1);
    }
  }

  /** One iteration of the outer loop (BMAppx.java:132-154): examine the
      window ending at `j`, report it exactly when it is within budget, and
      advance `j` by `d`, or by 1 when `d` is 0. */
  method ExamineWindow(text: string, pattern: string, k: int, dk: Table<int, char, int>, j: int,
                       results: seq<Match>)
    returns (j': int, results': seq<Match>)
    requires k <= |pattern|
    requires ScanReady(text, |pattern|, k, dk)
    requires |pattern| <= j < |text|
    ensures Distance(text[j - |pattern|..j], pattern) <= k ==>
              results' == results + [Match(j - |pattern|, text[j - |pattern|..j])]
    ensures Distance(text[j - |pattern|..j], pattern) > k ==> results' == results
    ensures j' == j + (if WindowShift(text, pattern, k, dk, j) == 0 then 1 else WindowShift(text, pattern, k, dk, j))
    ensures j < j' <= j + (if k == |pattern| then 1 else |pattern| - k)
    ensures k == 0 && |pattern| > 0 ==> j' == j + |pattern|
  {
    var m := |pattern|;
    var neq, d := ScanWindow(text, pattern, k, dk, j);
    results' := results;
    if neq <= k {
      results' := results' + [Match(j - m, text[j - m..j])];
    }
    j' := j + (if d == 0 then 1 else d);
  }

  /** Every match is a full window ending before the last character of the
      text, copied from the text, and within distance `k` of the pattern. */
  ghost predicate Sound(text: string, pattern: string, k: int, results: seq<Match>)
  {
    forall t :: t in results ==>
      && 0 <= t.offset
      && t.offset + |pattern| < |text|
      && t.window == text[t.offset..t.offset + |pattern|]
      && Distance(t.window, pattern) <= k
  }

  /** Matches in strictly increasing order of offset. */
  ghost predicate IncreasingMatches(ms: seq<Match>)
  {
    forall a, b :: 0 <= a < b < |ms| ==> ms[a].offset < ms[b].offset
  }

  /** The state of the outer loop with window end `j`: sound matches, in
      increasing order, all left of the current window; with `k == m` one
      match per window start so far. */
  ghost predicate Scanned(text: string, pattern: string, k: int, j: int, results: seq<Match>)
  {
    var m := |pattern|;
    && j >= m
    && Sound(text, pattern, k, results)
    && IncreasingMatches(results)
    && (forall a :: 0 <= a < |results| ==> results[a].offset < j - m)
    && (k == m ==> (j <= |text| || j == m) && |results| == j - m
                   && forall a :: 0 <= a < |results| ==> results[a].offset == a)
  }

  /** Appending the window ending at `j`, when it is within budget, keeps
      the matches sound and in increasing order. */
  lemma ReportStep(text: string, pattern: string, k: int, j: int, results: seq<Match>, results': seq<Match>)
    requires |pattern| <= j < |text|
    requires Sound(text, pattern, k, results)
    requires IncreasingMatches(results)
    requires forall a :: 0 <= a < |results| ==> results[a].offset < j - |pattern|
    requires Distance(text[j - |pattern|..j], pattern) <= k ==>
               results' == results + [Match(j - |pattern|, text[j - |pattern|..j])]
    requires Distance(text[j - |pattern|..j], pattern) > k ==> results' == results
    ensures Sound(text, pattern, k, results')
    ensures IncreasingMatches(results')
    ensures forall a :: 0 <= a < |results'| ==> results'[a].offset <= j - |pattern|
  {
  }

  /** One iteration of the outer loop keeps `Scanned`. */
  lemma ScanStep(text: string, pattern: string, k: int, j: int, j': int, results: seq<Match>, results': seq<Match>)
    requires Scanned(text, pattern, k, j, results)
    requires j < |text|
    requires Distance(text[j - |pattern|..j], pattern) <= k ==>
               results' == results + [Match(j - |pattern|, text[j - |pattern|..j])]
    requires Distance(text[j - |pattern|..j], pattern) > k ==> results' == results
    requires j < j' && (k == |pattern| ==> j' == j + 1)
    ensures Scanned(text, pattern, k, j', results')
  {
    var m := |pattern|;
    ReportStep(text, pattern, k, j, results, results');
    if k == m {
      assert Distance(text[j - m..j], pattern) <= k;
    }
  }

  /** The matches the scan reports from window end `j` on, stated window by
      window: the window ending at `j` is reported when its distance to the
      pattern is at most `k`, and the next window ends `WindowShift` further
      on (1 further when the shift is 0), until the window end reaches the
      text length. */
  ghost function Reports(text: string, pattern: string, k: int, dk: Table<int, char, int>, j: int): seq<Match>
    requires k <= |pattern|
    requires ScanReady(text, |pattern|, k, dk)
    requires j >= |pattern|
    decreases |text| - j
  {
    var m := |pattern|;
    if j >= |text| then []
    else
      var w := text[j - m..j];
      var d := WindowShift(text, pattern, k, dk, j);
      (if Distance(w, pattern) <= k then [Match(j - m, w)] else [])
        + Reports(text, pattern, k, dk, j + (if d == 0 then 1 else d))
  }

  /** Exact occurrences of the pattern at the window offsets `o, o+m,
      o+2m, ...` whose windows end before the last character of the
      text. */
  ghost function ExactReports(text: string, pattern: string, o: int): seq<Match>
    decreases |text| - o
  {
    var m := |pattern|;
    if m == 0 || o < 0 || o + m >= |text| then []
    else
      (if text[o..o + m] == pattern then [Match(o, pattern)] else [])
        + ExactReports(text, pattern, o + m)
  }

  /** With no mismatch budget the scan advances by exactly `m` and reports
      exactly the windows equal to the pattern: the occurrences of the
      pattern at offsets that are multiples of `m`, not every occurrence. */
  lemma {:induction false} ZeroBudgetReports(text: string, pattern: string, dk: Table<int, char, int>, j: int)
    requires |pattern| > 0
    requires ScanReady(text, |pattern|, 0, dk)
    requires j >= |pattern|
    ensures Reports(text, pattern, 0, dk, j) == ExactReports(text, pattern, j - |pattern|)
    decreases |text| - j
  {
    var m := |pattern|;
    if j < |text| {
      ZeroBudgetShift(text, pattern, dk, j, 1);
      ZeroIffEqual(text[j - m..j], pattern);
      ZeroBudgetReports(text, pattern, dk, j + m);
    }
  }

  /** One iteration of the outer loop consumes the head of `Reports`. */
  lemma ReportsStep(text: string, pattern: string, k: int, dk: Table<int, char, int>, j: int, j': int,
                    results: seq<Match>, results': seq<Match>)
    requires k <= |pattern|
    requires ScanReady(text, |pattern|, k, dk)
    requires |pattern| <= j < |text|
    requires Distance(text[j - |pattern|..j], pattern) <= k ==>
               results' == results + [Match(j - |pattern|, text[j - |pattern|..j])]
    requires Distance(text[j - |pattern|..j], pattern) > k ==> results' == results
    requires j' == j + (if WindowShift(text, pattern, k, dk, j) == 0 then 1 else WindowShift(text, pattern, k, dk, j))
    ensures results' + Reports(text, pattern, k, dk, j') == results + Reports(text, pattern, k, dk, j)
  {
    var m := |pattern|;
    var w := text[j - m..j];
    var head := if Distance(w, pattern) <= k then [Match(j - m, w)] else [];
    var rest := Reports(text, pattern, k, dk, j');
    assert Reports(text, pattern, k, dk, j) == head + rest;
    assert results' + rest == results + (head + rest);
  }

  /** The state of the outer loop, including what is still to come: the
      matches so far followed by what `Reports` yields from `j` on are the
      whole of what it yields from the first window. */
  ghost predicate ScanProgress(text: string, pattern: string, k: int, dk: Table<int, char, int>,
                               j: int, results: seq<Match>)
    requires k <= |pattern|
    requires ScanReady(text, |pattern|, k, dk)
  {
    && Scanned(text, pattern, k, j, results)
    && results + Reports(text, pattern, k, dk, j) == Reports(text, pattern, k, dk, |pattern|)
  }

  /** One iteration of the outer loop keeps `ScanProgress`. */
  lemma Advance(text: string, pattern: string, k: int, dk: Table<int, char, int>, j: int, j': int,
                results: seq<Match>, results': seq<Match>)
    requires k <= |pattern|
    requires ScanReady(text, |pattern|, k, dk)
    requires ScanProgress(text, pattern, k, dk, j, results)
    requires j < |text|
    requires Distance(text[j - |pattern|..j], pattern) <= k ==>
               results' == results + [Match(j - |pattern|, text[j - |pattern|..j])]
    requires Distance(text[j - |pattern|..j], pattern) > k ==> results' == results
    requires j' == j + (if WindowShift(text, pattern, k, dk, j) == 0 then 1 else WindowShift(text, pattern, k, dk, j))
    ensures ScanProgress(text, pattern, k, dk, j', results')
  {
    ScanStep(text, pattern, k, j, j', results, results');
    ReportsStep(text, pattern, k, dk, j, j', results, results');
  }

  /** The outer scanning loop (BMAppx.java:130-155). The window end `j`
      starts at `m` and stays below the text length, so the window ending
      at the last character is never examined. The result is exactly
      `Reports` from the first window; with `k == 0` that is the exact
      occurrences of the pattern at offsets `0, m, 2m, ...`. */
  method ScanText(text: string, pattern: string, k: int, dk: Table<int, char, int>)
    returns (results: seq<Match>)
    requires k <= |pattern|
    requires ScanReady(text, |pattern|, k, dk)
    ensures forall t :: t in results ==> 0 <= t.offset && t.offset + |pattern| < |text|
    ensures forall t :: t in results ==>
              t.window == text[t.offset..t.offset + |pattern|] && Distance(t.window, pattern) <= k
    ensures IncreasingMatches(results)
    ensures k == |pattern| ==>
              |results| == (if |text| > |pattern| then |text| - |pattern| else 0)
              && forall a :: 0 <= a < |results| ==> results[a].offset == a
    ensures k == 0 ==> forall t :: t in results ==> t.window == pattern
    ensures results == Reports(text, pattern, k, dk, |pattern|)
    ensures k == 0 && |pattern| > 0 ==> results == ExactReports(text, pattern, 0)
  {
    var m := |pattern|;
    var n := |text|;
    var j := m;
    results := [];
    while j < n
      invariant ScanProgress(text, pattern, k, dk, j, results)
      decreases n - j
    {
      var j', results' := ExamineWindow(text, pattern, k, dk, j, results);
      Advance(text, pattern, k, dk, j, j', results, results');
      j, results := j', results';
    }
    ScanDone(text, pattern, k, dk, j, results);
  }

  /** What the outer loop guarantees once the window end has passed the
      text. */
  lemma ScanDone(text: string, pattern: string, k: int, dk: Table<int, char, int>, j: int, results: seq<Match>)
    requires k <= |pattern|
    requires ScanReady(text, |pattern|, k, dk)
    requires ScanProgress(text, pattern, k, dk, j, results)
    requires j >= |text|
    ensures forall t :: t in results ==> 0 <= t.offset && t.offset + |pattern| < |text|
    ensures forall t :: t in results ==>
              t.window == text[t.offset..t.offset + |pattern|] && Distance(t.window, pattern) <= k
    ensures IncreasingMatches(results)
    ensures k == |pattern| ==>
              |results| == (if |text| > |pattern| then |text| - |pattern| else 0)
              && forall a :: 0 <= a < |results| ==> results[a].offset == a
    ensures k == 0 ==> forall t :: t in results ==> t.window == pattern
    ensures results == Reports(text, pattern, k, dk, |pattern|)
    ensures k == 0 && |pattern| > 0 ==> results == ExactReports(text, pattern, 0)
  {
    assert results + [] == results;
    if k == 0 {
      forall t | t in results
        ensures t.window == pattern
      {
        ZeroIffEqual(t.window, pattern);
      }
      if |pattern| > 0 {
        ZeroBudgetReports(text, pattern, dk, |pattern|);
      }
    }
  }
}
