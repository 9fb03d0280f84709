/**
 * Case-insensitive comparison of email addresses, the model of
 * `StringComparison.OrdinalIgnoreCase`: both strings are upper-cased one
 * character at a time and the results are compared ordinally. Only the ASCII
 * letters are folded here.
 */
module CaseFold {

  /** Upper-cases one character: 'a'..'z' become 'A'..'Z', everything else is kept. */
  function ToUpper(c: char): char
  {
    if 'a' <= c <= 'z' then (c as int - 'a' as int + 'A' as int) as char else c
  }

  /** The upper-cased form of a string, character by character. */
  function Fold(s: string): (f: string)
    ensures |f| == |s|
  {
    if s == [] then [] else [ToUpper(s[0])] + Fold(s[1..])
  }

  /** Position `i` of the folded string is the upper-cased character at position `i`. */
  lemma {:induction false} FoldAt(s: string, i: nat)
    requires i < |s|
    ensures Fold(s)[i] == ToUpper(s[i])
  {
    if i > 0 {
      FoldAt(s[1..], i - 1);
    }
  }

  /** `a.Equals(b, StringComparison.OrdinalIgnoreCase)`. */
  predicate EqualsIgnoreCase(a: string, b: string)
  {
    Fold(a) == Fold(b)
  }

  /** Folding twice is folding once: a folded string has no lower-case ASCII letter left. */
  lemma {:induction false} FoldIdempotent(s: string)
    ensures Fold(Fold(s)) == Fold(s)
  {
    if s != [] {
      FoldIdempotent(s[1..]);
      assert Fold(s) == [ToUpper(s[0])] + Fold(s[1..]);
      assert Fold(s)[1..] == Fold(s[1..]);
    }
  }

  /** Every spelling of an address matches its own upper-case form. */
  lemma MatchesOwnFold(s: string)
    ensures EqualsIgnoreCase(s, Fold(s))
  {
    FoldIdempotent(s);
  }

  /**
   * The comparison is character-wise: equal lengths and equal upper-cased
   * characters at every position.
   */
  lemma EqualsIgnoreCaseCharwise(a: string, b: string)
    ensures EqualsIgnoreCase(a, b) <==>
            |a| == |b| && forall i :: 0 <= i < |a| ==> ToUpper(a[i]) == ToUpper(b[i])
  {
    if |a| == |b| {
      forall i | 0 <= i < |a| ensures Fold(a)[i] == ToUpper(a[i]) && Fold(b)[i] == ToUpper(b[i]) {
        FoldAt(a, i);
        FoldAt(b, i);
      }
    }
  }

  /** The comparison is an equivalence relation, which is what the store's invariant relies on. */
  lemma EqualsIgnoreCaseIsEquivalence(a: string, b: string, c: string)
    ensures EqualsIgnoreCase(a, a)
    ensures EqualsIgnoreCase(a, b) ==> EqualsIgnoreCase(b, a)
    ensures EqualsIgnoreCase(a, b) && EqualsIgnoreCase(b, c) ==> EqualsIgnoreCase(a, c)
  {
  }

  /** Examples: "aB@c" and "Ab@C" compare equal; "a@c" equals neither "b@c" nor "a@cc". */
  lemma CaseFoldExamples()
    ensures EqualsIgnoreCase("aB@c", "Ab@C")
    ensures !EqualsIgnoreCase("a@c", "b@c")
    ensures !EqualsIgnoreCase("a@c", "a@cc")
  {
    assert Fold("a@c")[0] != Fold("b@c")[0];
  }
}
