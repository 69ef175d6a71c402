/** ASCII character classes and ASCII lower-casing, shared by the slug, extension and search code. */
module Ascii {
  /** The class `[A-Za-z0-9]` of the slug pattern. */
  predicate IsAlnum(c: char) {
    'A' <= c <= 'Z' || 'a' <= c <= 'z' || '0' <= c <= '9'
  }

  predicate IsUpper(c: char) {
    'A' <= c <= 'Z'
  }

  /** `str.lower()` on one character, restricted to ASCII. */
  function LowerChar(c: char): char {
    if IsUpper(c) then (c as int + 32) as char else c
  }

  /** `str.lower()` restricted to ASCII. */
  function Lower(s: string): string {
    seq(|s|, i requires 0 <= i < |s| => LowerChar(s[i]))
  }

  /**
   * Lower-casing changes a character exactly when it is an upper-case letter, never
   * leaves one, and keeps the class `[A-Za-z0-9]` and every other character.
   */
  lemma LowerCharMeaning(c: char)
    ensures LowerChar(c) == c <==> !IsUpper(c)
    ensures !IsUpper(LowerChar(c))
    ensures IsAlnum(LowerChar(c)) <==> IsAlnum(c)
    ensures IsUpper(c) ==> 'a' <= LowerChar(c) <= 'z' && LowerChar(c) as int - c as int == 'a' as int - 'A' as int
  {
  }

  /**
   * A lower-cased string keeps its length and has no upper-case letter left; a string
   * without upper-case letters is its own lower-case form, so lower-casing is idempotent.
   */
  lemma LowerMeaning(s: string)
    ensures |Lower(s)| == |s|
    ensures forall i :: 0 <= i < |s| ==> !IsUpper(Lower(s)[i])
    ensures (forall i :: 0 <= i < |s| ==> !IsUpper(s[i])) ==> Lower(s) == s
    ensures Lower(Lower(s)) == Lower(s)
  {
    forall i | 0 <= i < |s| ensures !IsUpper(Lower(s)[i]) {
      LowerCharMeaning(s[i]);
    }
  }

  lemma LowerConcat(a: string, b: string)
    ensures Lower(a + b) == Lower(a) + Lower(b)
  {
    assert forall i :: 0 <= i < |a + b| ==> Lower(a + b)[i] == (Lower(a) + Lower(b))[i];
  }
}
