/** The four character classes of the generator and the ASCII-only tests
    the strength heuristic applies to a password's characters. */
module CharClass {

  /** The alphabets the generator concatenates, exactly as the component spells them. */
  const Upper: string := "ABCDEFGHIJKLMNOPQRSTUVWXYZ"
  const Lower: string := "abcdefghijklmnopqrstuvwxyz"
  const Digits: string := "0123456789"
  const Symbols: string := "!@#$%^&*()_+-=[]{}|;:,.<>?"

  /** `[A-Z]`, `[a-z]` and `\d` of a regular expression without the unicode flag. */
  predicate IsAsciiUpper(c: char) { 'A' <= c <= 'Z' }
  predicate IsAsciiLower(c: char) { 'a' <= c <= 'z' }
  predicate IsAsciiDigit(c: char) { '0' <= c <= '9' }

  /** The complement of `[a-zA-Z0-9]`. */
  predicate IsSpecial(c: char) { !IsAsciiUpper(c) && !IsAsciiLower(c) && !IsAsciiDigit(c) }

  lemma AlphabetSizes()
    ensures |Upper| == 26 && |Lower| == 26 && |Digits| == 10 && |Symbols| == 26
  {
  }

  /** Each literal alphabet holds exactly the characters of its class. */
  lemma UpperIsAsciiUpper(c: char)
    ensures c in Upper <==> IsAsciiUpper(c)
  {
    if IsAsciiUpper(c) {
      var i := c as int - 'A' as int;
      assert Upper[i] == c;
    }
  }

  lemma LowerIsAsciiLower(c: char)
    ensures c in Lower <==> IsAsciiLower(c)
  {
    if IsAsciiLower(c) {
      var i := c as int - 'a' as int;
      assert Lower[i] == c;
    }
  }

  lemma DigitsIsAsciiDigit(c: char)
    ensures c in Digits <==> IsAsciiDigit(c)
  {
    if IsAsciiDigit(c) {
      var i := c as int - '0' as int;
      assert Digits[i] == c;
    }
  }

  /** Every symbol the generator may emit counts as "special" for the heuristic. */
  lemma SymbolsAreSpecial(c: char)
    ensures c in Symbols ==> IsSpecial(c)
  {
  }

  /** The four classes are pairwise disjoint. */
  lemma ClassesDisjoint(c: char)
    ensures !(IsAsciiUpper(c) && IsAsciiLower(c))
    ensures !(IsAsciiUpper(c) && IsAsciiDigit(c))
    ensures !(IsAsciiLower(c) && IsAsciiDigit(c))
    ensures c in Symbols ==> !IsAsciiUpper(c) && !IsAsciiLower(c) && !IsAsciiDigit(c)
  {
  }
}
