/** The preprocessing phase of `appx_search` (BMAppx.java): the `ready`
    map and the shift table `dk` of the Tarhio-Ukkonen approximate
    Boyer-Moore search. Table rows are 1-based depths of the window; pattern
    positions are the 0-based `charAt` indices of the source. */
module Preprocess {
  import opened Wrappers
  import opened Tables
  import opened Alphabet

  /** Raised by the source as a `NullPointerException` when `ready` has no
      entry for a pattern character, that is, the character does not occur
      in the text. */
  datatype PreprocessError = MissingReadyEntry(ch: char)

  /** What preprocessing produces: `ready` (character to position) and the
      shift table `dk` (depth and character to shift). */
  datatype Prepared = Prepared(ready: map<char, int>, dk: Table<int, char, int>)

  function Max(a: int, b: int): int
  {
    if a >= b then a else b
  }

  /** The largest 0-based position `q` with `2 <= q < hi` and `p[q] == c`,
      or -1 when there is none. Positions 0 and 1 are never refined. */
  function Rightmost(p: string, c: char, hi: int): (o: int)
    requires hi <= |p|
    ensures o == -1 ==> forall q :: 2 <= q < hi ==> p[q] != c
    ensures o != -1 ==> 2 <= o < hi && p[o] == c
    ensures o != -1 ==> forall q :: o < q < hi ==> p[q] != c
    decreases hi
  {
    if hi <= 2 then -1
    else if p[hi - 1] == c then hi - 1
    else Rightmost(p, c, hi - 1)
  }

  /** The largest 0-based position `q` with `2 <= q < hi` whose character
      is outside `alphabet`, or -1 when there is none: the position at which
      the refinement pass, running right to left, finds no `ready` entry. */
  function RightmostMissing(p: string, alphabet: set<char>, hi: int): (o: int)
    requires hi <= |p|
    ensures o == -1 ==> forall q :: 2 <= q < hi ==> p[q] in alphabet
    ensures o != -1 ==> 2 <= o < hi && p[o] !in alphabet
    ensures o != -1 ==> forall q :: o < q < hi ==> p[q] in alphabet
    decreases hi
  {
    if hi <= 2 then -1
    else if p[hi - 1] !in alphabet then hi - 1
    else RightmostMissing(p, alphabet, hi - 1)
  }

  /** The shift recorded for depth `r` and alphabet character `c` once the
      pattern positions above `bound` have been processed: the distance
      from `c`'s rightmost refinable occurrence to `r` when that occurrence
      was processed and lies left of `r`, and `m` otherwise. */
  function Shift(p: string, c: char, r: int, bound: int): int
  {
    var o := Rightmost(p, c, |p|);
    if o > bound && r > o then r - o else |p|
  }

  /** What `dk.get(r, c)` answers after preprocessing `p` over `alphabet`
      with budget `k`: the default `m+1` outside the trailing rows
      `(m-k, m]` (and everywhere when the alphabet is empty), `null` for a
      character outside the alphabet, and the refined shift otherwise. */
  function ExpectedGet(p: string, alphabet: set<char>, k: int, r: int, c: char): Option<int>
  {
    var m := |p|;
    if !(m - k < r <= m) || alphabet == {} then Some(m + 1)
    else if c !in alphabet then None
    else Some(Shift(p, c, r, 1))
  }

  /** The state preprocessing leaves behind, independently of the order in
      which the alphabet is visited. */
  ghost predicate Preprocessed(p: string, alphabet: set<char>, k: int, t: Prepared)
  {
    var m := |p|;
    && t.ready.Keys == alphabet
    && (forall c :: c in t.ready ==> t.ready[c] == (if Rightmost(p, c, m) != -1 then m - k else m))
    && t.dk.default == Some(m + 1)
    && (forall r :: r in t.dk.rows <==> m - k < r <= m && alphabet != {})
    && (forall r, c :: t.dk.Get(r, c) == ExpectedGet(p, alphabet, k, r, c))
  }

  /** The shift table at a point of the refinement pass: rows `(m-k, m]`
      hold exactly the alphabet characters, with the shifts of the pattern
      positions above `bound` already recorded. */
  ghost predicate RefinedAbove(p: string, alphabet: set<char>, k: int, dk: Table<int, char, int>, bound: int)
  {
    var m := |p|;
    && dk.default == Some(m + 1)
    && (forall r :: r in dk.rows <==> m - k < r <= m && alphabet != {})
    && (forall r, c :: r in dk.rows ==>
          dk.Get(r, c) == (if c in alphabet then Some(Shift(p, c, r, bound)) else None))
  }

  /** `ready[c] := m` for every alphabet character (BMAppx.java:103-106). */
  method InitReady(alphabet: seq<char>, m: int) returns (ready: map<char, int>)
    ensures ready.Keys == Chars(alphabet)
    ensures forall c :: c in ready ==> ready[c] == m
  {
    ready := map[];
    var chidx := 0;
    while chidx < |alphabet|
      invariant 0 <= chidx <= |alphabet|
      invariant ready.Keys == Chars(alphabet[..chidx])
      invariant forall c :: c in ready ==> ready[c] == m
    {
      assert alphabet[..chidx + 1] == alphabet[..chidx] + [alphabet[chidx]];
      ready := ready[alphabet[chidx] := m];
      chidx := chidx + 1;
    }
    assert alphabet[..chidx] == alphabet;
  }

  /** `dk[idx, c] := m` for every alphabet character and every depth
      `idx` in `(m-k, m]`, in a table whose default is `m+1`
      (BMAppx.java:98, 108-113). Nothing is refined yet. */
  method InitRows(p: string, alphabet: seq<char>, k: int) returns (dk: Table<int, char, int>)
    ensures RefinedAbove(p, Chars(alphabet), k, dk, |p|)
  {
    var m := |p|;
    dk := Table<int, char, int>.Empty(Some(m + 1));
    var chidx := 0;
    while chidx < |alphabet|
      invariant 0 <= chidx <= |alphabet|
      invariant dk.default == Some(m + 1)
      invariant forall r :: r in dk.rows <==> m - k < r <= m && chidx > 0
      invariant forall r, c :: r in dk.rows ==>
                  dk.Get(r, c) == (if c in alphabet[..chidx] then Some(m) else None)
    {
      var idx := m;
      while idx > m - k
        invariant idx <= m
        invariant idx >= m - k || idx == m
        invariant dk.default == Some(m + 1)
        invariant forall r :: r in dk.rows <==> m - k < r <= m && (chidx > 0 || r > idx)
        invariant forall r, c :: r in dk.rows ==>
                    dk.Get(r, c) == (if c in alphabet[..chidx] || (c == alphabet[chidx] && r > idx) then Some(m) else None)
      {
        dk := dk.Put(idx, alphabet[chidx], m);
        idx := idx - 1;
      }
      assert alphabet[..chidx + 1] == alphabet[..chidx] + [alphabet[chidx]];
      chidx := chidx + 1;
    }
    assert alphabet[..chidx] == alphabet;
    assert |alphabet| > 0 ==> alphabet[0] in Chars(alphabet);
  }

  /** The shift table inside the refinement loop for position `idx`: the
      depths `(jdx, start]` of `c` already hold `r - idx`, everything else
      is as it was before position `idx`. */
  ghost predicate Refining(p: string, alphabet: set<char>, k: int, dk: Table<int, char, int>,
                           idx: int, c: char, start: int, jdx: int)
  {
    var m := |p|;
    && dk.default == Some(m + 1)
    && (forall r :: r in dk.rows <==> m - k < r <= m && alphabet != {})
    && (forall r, c' :: r in dk.rows ==>
          dk.Get(r, c') == (if c' in alphabet
                            then Some(if c' == c && jdx < r <= start then r - idx else Shift(p, c', r, idx))
                            else None))
  }

  /** One write of the refinement loop (BMAppx.java:118). */
  lemma RefineStep(p: string, alphabet: set<char>, k: int, dk: Table<int, char, int>,
                   idx: int, c: char, start: int, jdx: int)
    requires c in alphabet
    requires Max(idx, |p| - k) < jdx <= start <= |p|
    requires Refining(p, alphabet, k, dk, idx, c, start, jdx)
    ensures Refining(p, alphabet, k, dk.Put(jdx, c, jdx - idx), idx, c, start, jdx - 1)
  {
  }

  /** When the refinement loop stops, position `idx` is fully recorded. */
  lemma RefineExit(p: string, alphabet: set<char>, k: int, dk: Table<int, char, int>,
                   idx: int, start: int, jdx: int)
    requires 2 <= idx < |p|
    requires start == (if Rightmost(p, p[idx], |p|) > idx then |p| - k else |p|)
    requires jdx <= Max(idx, |p| - k)
    requires jdx >= Max(idx, |p| - k) || jdx == start
    requires Refining(p, alphabet, k, dk, idx, p[idx], start, jdx)
    ensures RefinedAbove(p, alphabet, k, dk, idx - 1)
  {
    var m := |p|;
    var c := p[idx];
    forall r, c' | r in dk.rows && c' in alphabet
      ensures dk.Get(r, c') == Some(Shift(p, c', r, idx - 1))
    {
      if c' != c {
        assert Rightmost(p, c', m) != idx;
      }
    }
  }

  /** The inner refinement loop for pattern position `idx`
      (BMAppx.java:116-119): writes `dk[jdx, c] := jdx - idx` for `jdx`
      from `start` (the current `ready[c]`) down to just above
      `max(idx, m-k)`. At the rightmost occurrence of `c` the loop records
      its shifts; at any further-left occurrence `start` is `m-k` and
      nothing is written. */
  method RefineAt(p: string, alphabet: set<char>, k: int, dk: Table<int, char, int>, idx: int, start: int)
    returns (dk': Table<int, char, int>)
    requires 2 <= idx < |p|
    requires p[idx] in alphabet
    requires RefinedAbove(p, alphabet, k, dk, idx)
    requires start == (if Rightmost(p, p[idx], |p|) > idx then |p| - k else |p|)
    ensures RefinedAbove(p, alphabet, k, dk', idx - 1)
  {
    var m := |p|;
    var c := p[idx];
    dk' := dk;
    var jdx := start;
    while jdx > Max(idx, m - k)
      invariant jdx <= start
      invariant jdx >= Max(idx, m - k) || jdx == start
      invariant Refining(p, alphabet, k, dk', idx, c, start, jdx)
    {
      RefineStep(p, alphabet, k, dk', idx, c, start, jdx);
      dk' := dk'.Put(jdx, c, jdx - idx);
      jdx := jdx - 1;
    }
    RefineExit(p, alphabet, k, dk', idx, start, jdx);
  }

  /** `ready` during the refinement pass: `m-k` for the characters whose
      rightmost refinable occurrence lies above `bound`, `m` for the others. */
  ghost predicate ReadyAbove(p: string, alphabet: set<char>, k: int, ready: map<char, int>, bound: int)
  {
    && ready.Keys == alphabet
    && forall c :: c in ready ==> ready[c] == (if Rightmost(p, c, |p|) > bound then |p| - k else |p|)
  }

  /** `ready[p[idx]] := m-k` (BMAppx.java:121) moves the boundary of the
      refinement pass one position to the left. */
  lemma MarkReady(p: string, alphabet: set<char>, k: int, ready: map<char, int>, idx: int)
    requires 2 <= idx < |p|
    requires p[idx] in alphabet
    requires ReadyAbove(p, alphabet, k, ready, idx)
    ensures ReadyAbove(p, alphabet, k, ready[p[idx] := |p| - k], idx - 1)
  {
    var ready' := ready[p[idx] := |p| - k];
    forall c | c in ready'
      ensures ready'[c] == (if Rightmost(p, c, |p|) > idx - 1 then |p| - k else |p|)
    {
      if c != p[idx] {
        assert Rightmost(p, c, |p|) != idx;
      }
    }
  }

  /** Once every position down to 2 is processed, the refinement state is
      the final preprocessing state. */
  lemma FinishRefinement(p: string, alphabet: set<char>, k: int, ready: map<char, int>,
                         dk: Table<int, char, int>, idx: int)
    requires if |p| >= 2 then idx == 1 else idx == |p| - 1
    requires ReadyAbove(p, alphabet, k, ready, idx)
    requires RefinedAbove(p, alphabet, k, dk, idx)
    ensures Preprocessed(p, alphabet, k, Prepared(ready, dk))
  {
    var m := |p|;
    forall c
      ensures Rightmost(p, c, m) > idx <==> Rightmost(p, c, m) != -1
    {
    }
    forall r, c
      ensures dk.Get(r, c) == ExpectedGet(p, alphabet, k, r, c)
    {
      assert Shift(p, c, r, idx) == Shift(p, c, r, 1);
    }
  }

  /** The shape of the preprocessing result: only the trailing rows
      `(m-k, m]` exist (so none with `k <= 0`); each stored shift lies in
      `[1, m]` when `k <= m`, since a refined shift `r - o` has
      `2 <= o < r <= m` and an unrefined one is `m`; and every character
      met at a refinable position `2..m-1` has `ready` equal to `m-k`, so
      any further-left occurrence of it writes nothing. */
  lemma PreparedShape(p: string, alphabet: set<char>, k: int, t: Prepared)
    requires Preprocessed(p, alphabet, k, t)
    requires forall q :: 2 <= q < |p| ==> p[q] in alphabet
    ensures forall r :: r in t.dk.rows ==> |p| - k < r <= |p|
    ensures k <= 0 ==> t.dk.rows == map[]
    ensures k <= |p| ==> forall r, c :: r in t.dk.rows && c in t.dk.rows[r] ==> 1 <= t.dk.rows[r][c] <= |p|
    ensures forall q :: 2 <= q < |p| ==> p[q] in t.ready && t.ready[p[q]] == |p| - k
  {
    if k <= |p| {
      forall r, c | r in t.dk.rows && c in t.dk.rows[r]
        ensures 1 <= t.dk.rows[r][c] <= |p|
      {
        assert t.dk.Get(r, c) == Some(t.dk.rows[r][c]);
        assert t.dk.Get(r, c) == ExpectedGet(p, alphabet, k, r, c);
      }
    }
    forall q | 2 <= q < |p|
      ensures p[q] in t.ready && t.ready[p[q]] == |p| - k
    {
      assert Rightmost(p, p[q], |p|) != -1;
    }
    if k <= 0 {
      forall r | r in t.dk.rows
        ensures false
      {
      }
    }
  }

  /** One iteration of the refinement pass (BMAppx.java:116-121): record
      the shifts of `p[idx]` if this is its rightmost occurrence, then mark
      it ready. */
  method RefineOne(p: string, alphabet: set<char>, k: int, ready: map<char, int>, dk: Table<int, char, int>, idx: int)
    returns (ready': map<char, int>, dk': Table<int, char, int>)
    requires 2 <= idx < |p|
    requires p[idx] in ready
    requires ReadyAbove(p, alphabet, k, ready, idx)
    requires RefinedAbove(p, alphabet, k, dk, idx)
    ensures ReadyAbove(p, alphabet, k, ready', idx - 1)
    ensures RefinedAbove(p, alphabet, k, dk', idx - 1)
  {
    var c := p[idx];
    dk' := RefineAt(p, alphabet, k, dk, idx, ready[c]);
    MarkReady(p, alphabet, k, ready, idx);
    ready' := ready[c := |p| - k];
  }

  /** The refinement pass (BMAppx.java:115-122): visits the pattern
      positions from `m-1` down to 2. The lookup `ready.get` at line 116
      yields `null` for a character outside the alphabet, which the source
      then unboxes; that failure is returned as `MissingReadyEntry`. */
  method RefineAll(pattern: string, alphabet: set<char>, k: int, ready0: map<char, int>, dk0: Table<int, char, int>)
    returns (res: Result<Prepared, PreprocessError>)
    requires ReadyAbove(pattern, alphabet, k, ready0, |pattern| - 1)
    requires RefinedAbove(pattern, alphabet, k, dk0, |pattern| - 1)
    ensures res.Success? ==> Preprocessed(pattern, alphabet, k, res.value)
    ensures res.Success? <==> RightmostMissing(pattern, alphabet, |pattern|) == -1
    ensures res.Failure? ==> res.error == MissingReadyEntry(pattern[RightmostMissing(pattern, alphabet, |pattern|)])
  {
    var m := |pattern|;
    var ready, dk := ready0, dk0;
    var idx := m - 1;
    while idx > 1
      invariant idx <= m - 1
      invariant m >= 2 ==> idx >= 1
      invariant m < 2 ==> idx == m - 1
      invariant RightmostMissing(pattern, alphabet, m) == RightmostMissing(pattern, alphabet, idx + 1)
      invariant ReadyAbove(pattern, alphabet, k, ready, idx)
      invariant RefinedAbove(pattern, alphabet, k, dk, idx)
    {
      var c := pattern[idx];
      if c !in ready {
        return Failure(MissingReadyEntry(c));
      }
      ready, dk := RefineOne(pattern, alphabet, k, ready, dk, idx);
      idx := idx - 1;
    }
    FinishRefinement(pattern, alphabet, k, ready, dk, idx);
    res := Success(Prepared(ready, dk));
  }

  /** Fills `ready` and `dk` (BMAppx.java:97-122). Fails exactly when a
      pattern character at a position in `2..m-1` is missing from the
      alphabet; the error names the rightmost such character. Only the
      trailing rows `(m-k, m]` are written, so nothing at all with `k <= 0`,
      and every stored shift lies in `[1, m]`. */
  method Preprocess(pattern: string, alphabet: seq<char>, k: int) returns (res: Result<Prepared, PreprocessError>)
    ensures res.Success? ==> Preprocessed(pattern, Chars(alphabet), k, res.value)
    ensures res.Success? <==> forall q :: 2 <= q < |pattern| ==> pattern[q] in alphabet
    ensures res.Failure? ==> exists q :: 2 <= q < |pattern| && pattern[q] !in alphabet
                                && res.error == MissingReadyEntry(pattern[q])
                                && forall q' :: q < q' < |pattern| ==> pattern[q'] in alphabet
    ensures res.Success? ==> forall r :: r in res.value.dk.rows ==> |pattern| - k < r <= |pattern|
    ensures res.Success? && k <= 0 ==> res.value.dk.rows == map[]
    ensures res.Success? && k <= |pattern| ==>
              forall r, c :: r in res.value.dk.rows && c in res.value.dk.rows[r] ==>
                1 <= res.value.dk.rows[r][c] <= |pattern|
    ensures res.Success? ==> forall q :: 2 <= q < |pattern| ==>
              pattern[q] in res.value.ready && res.value.ready[pattern[q]] == |pattern| - k
  {
    var A := Chars(alphabet);
    var ready := InitReady(alphabet, |pattern|);
    var dk := InitRows(pattern, alphabet, k);
    res := RefineAll(pattern, A, k, ready, dk);
    if res.Failure? {
      var q := RightmostMissing(pattern, A, |pattern|);
      assert 2 <= q < |pattern| && pattern[q] !in alphabet;
    } else {
      PreparedShape(pattern, A, k, res.value);
    }
  }
}
