# BMAppx in Dafny

A model of `BMAppx.java`, a k-mismatch approximate Boyer-Moore search in
the style of Tarhio and Ukkonen. `appx_search(text, pattern, k)` reports every
window of the text it examines that differs from the pattern in at most `k`
positions, as `(offset, window)` pairs. It runs in two phases:

- Preprocessing fills `ready` (character to position) and the shift table
  `dk` (depth and character to shift, default `m+1`).
- Scanning slides a window of length `m` over the text. It compares each
  window right to left and stops early once more than `k` mismatches are
  seen. The shift `d` starts at `m-k`. At every depth `i >= m-k` that the
  comparison reaches before stopping, `d` becomes the minimum of itself
  and `dk.get(i, text[h])`. Here `text[h]` is one position right of the
  character compared at depth `i`. At `i = m` it is the character just
  after the window. The window then advances by `d`, or by 1 when `d`
  is 0.

Modules, one per component of the source:

- `Wrappers` (`wrappers.dfy`): `Option` and `Result`. `Option.None` stands
  for Java `null`. A `Result.Failure` stands for an exception.
- `Tables` (`table.dfy`): the sparse two-key `Table` with its default.
  `Get` keeps apart the two kinds of miss. A missing row answers the
  default. A present row without the column answers `None`.
- `Alphabet` (`alphabet.dfy`): `getAlphabet`, the distinct characters of
  the text.
- `Hamming` (`hamming.dfy`): the mismatch count the contracts are stated
  in.
- `Preprocess` (`preprocess.dfy`): the `ready`/`dk` construction. It is
  specified declaratively through `Rightmost`, `Shift` and `ExpectedGet`,
  so the result does not depend on the order in which the alphabet is
  visited.
- `Scan` (`scan.dfy`): the window loop and the outer sliding loop.
- `BMAppx` (`bmappx.dfy`): `appx_search` itself, plus the proof that no
  shift lookup meets a `null`.

Conventions:

- Table rows are the 1-based window depths of the source.
- Pattern positions are its 0-based `charAt` indices.
- Integers are unbounded.
- A Java `String` is its sequence of UTF-16 code units, one Dafny `char`
  per unit. Dafny's `char` leaves out the surrogate code points, so a text
  containing unpaired or paired surrogates is outside the model. The code
  only compares characters for equality and uses them as map keys, so the
  model loses nothing for any other text.
- Negative `k` and the empty pattern are modelled as the code treats them.
  Neither causes a failure of its own, and a negative budget reports
  nothing. A negative budget still fails, like any other, when a pattern
  character at positions `2..m-1` is missing from the text.

Behaviour of the code a caller may not expect:

- With `k > m` the code returns an empty list, not an error.
- A pattern character at 0-based position `2..m-1` that does not occur in
  the text makes `ready.get` at line 116 return `null`, which is then
  unboxed. The model returns `Failure(MissingReadyEntry(c))` for that
  character. It does not treat the lookup as a default `m`.
- With `k == 0` the search is not exact substring search. The shift is
  always `m`, and the window ending at `n` is never examined. The model
  proves the exact result for `k == 0` and `m > 0` (`Scan.ExactReports`):
  the occurrences of the pattern at offsets `0, m, 2m, ...` whose window
  ends before the last character of the text, in that order. With `m == 0`
  and `k == 0` the case `k == m` applies instead, and every offset
  `0..n-1` is reported.

## Model

| member | source | states |
|---|---|---|
| Tables.Table.Get | BMAppx.java:40-47 | A missing row answers the table's default. In a present row, the answer is non-`null` exactly when the column is present, and it is then the stored value. |
| Tables.Table.Put | BMAppx.java:49-58 | After `put(t1,t2,v)`, `get(t1,t2)` is `v`. Every row other than `t1` answers as before, and so does every other column of an existing row `t1`. If row `t1` was absent, its other columns now answer `null` instead of the default. The default is kept, and `t1` joins the row keys. |
| Tables.Table.Empty | BMAppx.java:36-38 | A freshly constructed table has no rows and answers its default for every pair of keys. |
| Alphabet.GetAlphabet | BMAppx.java:61-74 | The alphabet contains every character of the text and only characters of the text. It has no duplicates, and its length is at most the text's length. |
| Alphabet.CharsBound | BMAppx.java:62-67 | A string has at most as many distinct characters as it has positions, so the alphabet array is no longer than the text. |
| Hamming.Distance | BMAppx.java:142-144 | The number of mismatching positions never exceeds the window length. |
| Hamming.ZeroIffEqual | BMAppx.java:142-150 | A window has no mismatches exactly when it equals the pattern, in both directions. |
| Hamming.SuffixBound | BMAppx.java:137-148 | Mismatches counted over a suffix of the window never exceed those of the whole window. This is why stopping at `neq > k` is sound. |
| Hamming.MismatchesMonotone | BMAppx.java:137-148 | Counting mismatches from a later depth never gives more than from an earlier one. Once `neq > k` at some depth, every depth below it also has more than `k` mismatches in its suffix. |
| Hamming.NoMismatchesFrom | BMAppx.java:142-144 | Where a suffix of the window agrees with the pattern, that suffix contributes no mismatch. |
| Preprocess.Rightmost | BMAppx.java:115-122 | The rightmost 0-based position in `2..hi-1` holding a given character, or -1 when there is none. Positions 0 and 1 are never refined. |
| Preprocess.RightmostMissing | BMAppx.java:115-116 | The rightmost position in `2..hi-1` whose character is outside the alphabet, or -1. This is where the right-to-left pass first finds no `ready` entry. |
| Preprocess.InitReady | BMAppx.java:103-106 | `ready` has exactly the alphabet's characters as keys, each mapped to `m`. |
| Preprocess.InitRows | BMAppx.java:98-113 | The table has default `m+1`. Rows exist exactly at depths `(m-k, m]` (none if the alphabet is empty), and each holds `m` for every alphabet character and nothing else. |
| Preprocess.RefineStep | BMAppx.java:118 | One write `dk[jdx, c] := jdx - idx` extends the range of depths refined for `c` by one and leaves every other entry as it was. |
| Preprocess.RefineExit | BMAppx.java:116 | When the inner loop stops at `max(idx, m-k)`, the shifts of position `idx` are fully recorded. |
| Preprocess.RefineAt | BMAppx.java:116-119 | At the rightmost occurrence of `c`, the inner loop records shift `r - idx` for every depth `r` in `(max(idx, m-k), m]`. At any occurrence further left it starts from `ready[c] = m-k` and writes nothing. |
| Preprocess.MarkReady | BMAppx.java:121 | Setting `ready[p[idx]] := m-k` moves the processed boundary one position left. A character's entry becomes `m-k` exactly once its rightmost occurrence has been passed. |
| Preprocess.RefineOne | BMAppx.java:116-121 | One iteration of the refinement pass keeps `ready` and `dk` in the state described for the positions processed so far. |
| Preprocess.FinishRefinement | BMAppx.java:115 | Once the pass stops above position 1 (or never starts, for `m < 3`), the state equals the declarative preprocessing result. |
| Preprocess.RefineAll | BMAppx.java:115-122 | The refinement pass succeeds exactly when every pattern character at positions `2..m-1` is in the alphabet, and it then yields the declarative result. Otherwise it fails naming the rightmost such missing character. |
| Preprocess.PreparedShape | BMAppx.java:108-122 | After preprocessing, rows exist only at depths `(m-k, m]`, so none with `k <= 0`. Every stored shift lies in `[1, m]` when `k <= m`. `ready` holds `m-k` for every character met at positions `2..m-1`. |
| Preprocess.Preprocess | BMAppx.java:97-122 | Same outcomes as the refinement pass, stated for the alphabet sequence. The failure reports the rightmost missing character. The result also has the shape stated under `PreparedShape`. |
| Scan.LookupDefined | BMAppx.java:138-139 | Under the scan's table assumptions, the depth lookup for a text character is never `null`. At depth `m-k` it is `m+1`, and above it lies in `[1, m]`. |
| Scan.WindowVerdict | BMAppx.java:137-150 | When the inner loop stops, `neq <= k` holds exactly when the window's distance is at most `k`. In that case `neq` is the distance. |
| Scan.ShiftStep | BMAppx.java:137-140 | At a depth the comparison reaches, the lookup is defined. The shift over depths `i..m` is the minimum of that lookup and the shift over `i+1..m` when `i >= m-k`, and equals the shift over `i+1..m` otherwise. |
| Scan.SkipUnconsulted | BMAppx.java:137 | Once the suffix from depth `i` has more than `k` mismatches, no depth from 1 to `i` affects the shift. The loop condition `neq <= k` stops before them. |
| Scan.ShiftBounds | BMAppx.java:136-140 | The shift never exceeds its start value `m-k`. It is 0 when `k == m`, and at least 1 otherwise, because every lookup is a positive shift or the default `m+1`. |
| Scan.WindowShift | BMAppx.java:136-140 | The shift computed for a window is at most `m-k`. It is 0 exactly when `k == m`, which is the case where line 154 advances by 1. |
| Scan.ZeroBudgetShift | BMAppx.java:136-140 | With `k == 0` only depth `m` is consulted, and its lookup is the default `m+1`, so the shift is exactly `m`. |
| Scan.CompareDepth | BMAppx.java:137-147 | One inner-loop step at depth `i` extends the mismatch count to the suffix from `i-1`. It also extends the shift to the depths `i..m`, as the declarative `ShiftFrom` defines it. |
| Scan.ScanWindow | BMAppx.java:132-148 | The window ending at `j` is judged correctly: `neq <= k` exactly when its distance to the pattern is at most `k`, and `neq` is then that distance. `d` is exactly `WindowShift`: the minimum of `m-k` and the lookups at the depths `i >= m-k` reached before the early stop. It is 0 when `k == m`, between 1 and `m-k` otherwise, and `m` when `k == 0`. |
| Scan.ExamineWindow | BMAppx.java:132-154 | The window is appended as `(j-m, text[j-m..j])` exactly when its distance is at most `k`. `j` advances by exactly `WindowShift`, or by 1 when that is 0. So it grows by at least 1 and at most `max(1, m-k)`, and by exactly `m` when `k == 0` and `m > 0`. With `m == 0` it grows by 1. |
| Scan.ScanStep | BMAppx.java:131-154 | One iteration of the outer loop keeps the scan invariant: reported windows are sound and strictly increasing, all left of the next window. With `k == m` they are exactly the offsets so far. |
| Scan.ReportsStep | BMAppx.java:150-154 | One outer iteration moves the head of the remaining `Reports` into the result list. The result so far followed by what remains is unchanged. |
| Scan.Advance | BMAppx.java:131-154 | One outer iteration keeps the full loop state: soundness and order, plus the fact that the result so far followed by `Reports` from the new `j` is the whole answer. |
| Scan.ZeroBudgetReports | BMAppx.java:130-155 | With `k == 0` and a non-empty pattern, the windows reported from `j` on are exactly the occurrences of the pattern at offsets `j-m, j, j+m, ...` that end before the last character. |
| Scan.ScanDone | BMAppx.java:131-157 | When `j` reaches `n`, the loop state gives every final fact. The list is exactly `Reports` from the first window, and with `k == 0` and `m > 0` exactly `ExactReports`. With `k == m` it has exactly `n-m` results (none if `n <= m`). |
| Scan.ScanText | BMAppx.java:130-157 | The result is exactly the list `Reports` yields from window end `m`: windows visited at the ends `WindowShift` produces, each kept when its distance is at most `k`. Every `(o, s)` has `0 <= o <= n-m-1`, `s == text[o..o+m]` and distance at most `k`, and the offsets strictly increase. With `k == m` every offset `0..n-m-1` is reported in order. With `k == 0` and `m > 0` the result is exactly the pattern's occurrences at offsets `0, m, 2m, ...` that end before the last character. |
| BMAppx.LookupNeverNull | BMAppx.java:108-113 | After preprocessing, the lookup `dk.get(i, text[h])` at line 139 never yields the "row present, column absent" `null`. Depth `m-k` is never written and answers `m+1`. The rows `(m-k, m]` hold every alphabet character with a shift in `[1, m]`. |
| BMAppx.AppxSearch | BMAppx.java:76-158 | With `k > m` the result is an empty list. Otherwise the search fails exactly when a pattern character at positions `2..m-1` is absent from the text, naming the rightmost one. On success the results are sound, strictly increasing and within `0..n-m-1`. They are exactly `Reports` over a table meeting the declarative preprocessing description. With `k == m` every such offset is reported. With `k == 0` and `m > 0` the result is exactly the occurrences at offsets `0, m, 2m, ...` that end before the last character. |

## Left out

- `main` and its argument parsing (BMAppx.java:160-172) are command-line plumbing.
- All diagnostics on `System.out` and `System.err`, and `Tuple.toString`, are output only. The results are modelled as a sequence of `Match(offset, window)`.
- The debug line at BMAppx.java:93 prints `text.substring(0, 10)` when the *pattern* is longer than 10. It throws when the text is shorter than 10. `AppxSearch` excludes that input by a precondition instead of modelling the exception.
- Hashing and iteration order of `HashSet`/`HashMap` are not modelled. `GetAlphabet` picks an arbitrary order, and the preprocessing result is proved independent of it.
- Java's 32-bit `int` is not modelled. `j + d`, `m + 1` and `m - k` are unbounded integers here. The difference matters only for texts within `m` of `2^31` characters, or for budgets near the `int` range.
- Completeness, meaning that every window within distance `k` of the pattern is reported, is not stated, because the code does not deliver it. `ScanText` states instead exactly which windows the code visits and reports. Four things prevent completeness:
  - Depth `m-k` is consulted (line 138) but never written, because the rows are only `(m-k, m]` (lines 109 and 116). It always answers `m+1`, so `d` stays at `m-k` there and only the `k` depths above it can lower the shift. For example, `("xxxxabcexd", "abcd", 1)` reports nothing, although the window at offset 4, `"abce"`, has distance 1: at `j = 7` depth 3 reads `c` but answers `m+1`, so `d = 3` and offset 4 is skipped.
  - Pattern positions 0 and 1 are never refined (`idx >= 2` at line 115), so their characters never lower a shift.
  - `ready[c]` is reset to `m-k` instead of `max(idx, m-k)`, so depths at or below a character's rightmost occurrence keep shift `m`.
  - The window ending at `n` is never examined (`j < text.length()` at line 131). At depth `m` the lookup reads `text[j]`, the character just after the window, which exists only because `j < n`.
- For the first reason, `k == 0` is not equivalent to exact substring search: only depth `m` is consulted and it answers `m+1`, so the shift is always `m`. The model states instead the exact result the code gives.
