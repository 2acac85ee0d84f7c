/** The alphabet of a text: its distinct characters (`getAlphabet` in BMAppx.java). */
module Alphabet {

  /** The set of characters occurring in `s`. */
  function Chars(s: string): set<char>
  {
    set c | c in s
  }

  /** No character occurs twice in `s`. */
  ghost predicate Distinct(s: string)
  {
    forall a, b :: 0 <= a < b < |s| ==> s[a] != s[b]
  }

  /** A text has no more distinct characters than it has characters. */
  lemma {:induction false} CharsBound(s: string)
    ensures |Chars(s)| <= |s|
  {
    if |s| > 0 {
      var front := s[..|s| - 1];
      CharsBound(front);
      assert Chars(s) == Chars(front) + {s[|s| - 1]} by {
        assert s == front + [s[|s| - 1]];
      }
    }
  }

  /** Collects the characters of `text` into a set, then lists that set in
      some order (the iteration order of the Java `HashSet`, which the model
      leaves unspecified). */
  method GetAlphabet(text: string) returns (alphabet: seq<char>)
    ensures forall i :: 0 <= i < |text| ==> text[i] in alphabet
    ensures forall c :: c in alphabet ==> c in text
    ensures Distinct(alphabet)
    ensures |alphabet| <= |text|
  {
    var out: set<char> := {};
    var idx := 0;
    while idx < |text|
      invariant 0 <= idx <= |text|
      invariant out == Chars(text[..idx])
    {
      assert text[..idx + 1] == text[..idx] + [text[idx]];
      out := out + {text[idx]};
      idx := idx + 1;
    }
    assert text[..idx] == text;
    CharsBound(text);

    alphabet := [];
    var rest := out;
    while rest != {}
      invariant rest <= out
      invariant forall c :: c in out <==> c in alphabet || c in rest
      invariant forall c :: c in alphabet ==> c !in rest
      invariant Distinct(alphabet)
      invariant |alphabet| + |rest| == |out|
      decreases |rest|
    {
      var ch :| ch in rest;
      alphabet := alphabet + [ch];
      rest := rest - {ch};
    }
  }
}
