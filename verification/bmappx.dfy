/** `appx_search` of BMAppx.java: the budget guard, the alphabet, the
    preprocessing and the scan, glued together. */
module BMAppx {
  import opened Wrappers
  import opened Tables
  import opened Alphabet
  import opened Hamming
  import opened Preprocess
  import opened Scan

  /** The lookups at BMAppx.java:139 never meet the "row present, column
      absent" `null`: depth `m-k` is never written, so it answers the
      default, and the trailing rows `(m-k, m]` hold every alphabet
      character, which covers every character of the text. */
  lemma LookupNeverNull(text: string, pattern: string, alphabet: set<char>, k: int, t: Prepared)
    requires k <= |pattern|
    requires Preprocessed(pattern, alphabet, k, t)
    requires forall c :: c in text ==> c in alphabet
    ensures ScanReady(text, |pattern|, k, t.dk)
  {
    var m := |pattern|;
    forall i, c | m - k < i <= m && c in text
      ensures t.dk.Get(i, c).Some? && 1 <= t.dk.Get(i, c).value <= m
    {
      assert t.dk.Get(i, c) == ExpectedGet(pattern, alphabet, k, i, c);
    }
    forall c | c in text
      ensures t.dk.Get(m - k, c) == Some(m + 1)
    {
      assert t.dk.Get(m - k, c) == ExpectedGet(pattern, alphabet, k, m - k, c);
    }
  }

  /** Approximate search for `pattern` in `text` with at most `k`
      mismatches (BMAppx.java:76-158). A budget above the pattern length
      yields no matches. Otherwise the search fails, as the source does with
      a `NullPointerException`, exactly when a pattern character at a
      0-based position in `2..m-1` does not occur in the text; when it
      succeeds, every match is a window of the text within distance `k`,
      the offsets increase and never reach `n-m`, and with `k == m` every
      offset `0..n-m-1` is reported. The list is exactly what the
      window-by-window description `Reports` yields over the table that
      preprocessing is specified to build; with `k == 0` that is the
      occurrences of the pattern at offsets `0, m, 2m, ...`. */
  method AppxSearch(text: string, pattern: string, k: int) returns (r: Result<seq<Match>, PreprocessError>)
    requires k <= |pattern| && |pattern| > 10 ==> |text| >= 10
    ensures k > |pattern| ==> r == Success([])
    ensures r.Failure? <==> k <= |pattern| && exists q :: 2 <= q < |pattern| && pattern[q] !in text
    ensures r.Failure? ==> exists q :: 2 <= q < |pattern| && pattern[q] !in text
                             && r.error == MissingReadyEntry(pattern[q])
                             && forall q' :: q < q' < |pattern| ==> pattern[q'] in text
    ensures r.Success? ==> forall t :: t in r.value ==> 0 <= t.offset && t.offset + |pattern| < |text|
    ensures r.Success? ==> forall t :: t in r.value ==>
              t.window == text[t.offset..t.offset + |pattern|] && Distance(t.window, pattern) <= k
    ensures r.Success? ==> IncreasingMatches(r.value)
    ensures r.Success? && k == |pattern| ==>
              |r.value| == (if |text| > |pattern| then |text| - |pattern| else 0)
              && forall a :: 0 <= a < |r.value| ==> r.value[a].offset == a
    ensures r.Success? && k == 0 ==> forall t :: t in r.value ==> t.window == pattern
    ensures r.Success? && k == 0 && |pattern| > 0 ==> r.value == ExactReports(text, pattern, 0)
    ensures r.Success? && k <= |pattern| ==>
              exists t :: Preprocessed(pattern, Chars(text), k, t) && ScanReady(text, |pattern|, k, t.dk)
                          && r.value == Reports(text, pattern, k, t.dk, |pattern|)
  {
    if k > |pattern| {
      return Success([]);
    }
    var alphabet := GetAlphabet(text);
    var prepared := Preprocess.Preprocess(pattern, alphabet, k);
    if prepared.Failure? {
      return Failure(prepared.error);
    }
    assert Chars(alphabet) == Chars(text);
    LookupNeverNull(text, pattern, Chars(alphabet), k, prepared.value);
    var results := ScanText(text, pattern, k, prepared.value.dk);
    return Success(results);
  }
}
