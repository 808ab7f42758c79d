/** Which neighbouring characters may trade places (_can_swap): two letters of the
    same case, two digits, or two punctuation marks. */
module Swap {
  import opened Chars
  import opened Seqs

  /** str.islower / str.isupper / str.isdigit on a string of at most one character:
      an empty string has no cased character and no digit, so all three are false */
  predicate LowerString1(s: string) { |s| == 1 && IsLower(s[0]) }
  predicate UpperString1(s: string) { |s| == 1 && IsUpper(s[0]) }
  predicate DigitString1(s: string) { |s| == 1 && IsDigit(s[0]) }

  /** `s in p` on strings is a substring test, which the empty string always passes */
  predicate InPunctuation(s: string)
  {
    s == [] || (|s| == 1 && IsMark(s[0]))
  }

  /** _can_swap as written, on two strings */
  predicate CanSwap(c1: string, c2: string)
  {
    if |c1| > 1 || |c2| > 1 then false
    else if LowerString1(c1) && LowerString1(c2) then true
    else if UpperString1(c1) && UpperString1(c2) then true
    else if DigitString1(c1) && DigitString1(c2) then true
    else InPunctuation(c1) && InPunctuation(c2)
  }

  /** The classes whose members may swap with each other */
  datatype SwapClass = Lowercase | Uppercase | Digit | Mark

  /** The class of a character, if it has one */
  function ClassOf(c: char): Option<SwapClass>
  {
    if IsLower(c) then Some(Lowercase)
    else if IsUpper(c) then Some(Uppercase)
    else if IsDigit(c) then Some(Digit)
    else if IsMark(c) then Some(Mark)
    else None
  }

  /** Each class holds exactly the characters that one test of _can_swap accepts; in
      particular no punctuation mark is a letter or a digit */
  lemma ClassOfMeaning(c: char)
    ensures ClassOf(c) == Some(Lowercase) <==> IsLower(c)
    ensures ClassOf(c) == Some(Uppercase) <==> IsUpper(c)
    ensures ClassOf(c) == Some(Digit) <==> IsDigit(c)
    ensures ClassOf(c) == Some(Mark) <==> c in Punctuation
  {
    MarkIsPunctuation(c);
  }

  /** _can_swap on the single characters the swap pass hands it */
  predicate CanSwapChars(a: char, b: char)
  {
    || (IsLower(a) && IsLower(b))
    || (IsUpper(a) && IsUpper(b))
    || (IsDigit(a) && IsDigit(b))
    || (IsMark(a) && IsMark(b))
  }

  /** Two characters may swap exactly when they belong to the same class */
  lemma CanSwapSameClass(a: char, b: char)
    ensures CanSwapChars(a, b) <==> ClassOf(a).Some? && ClassOf(a) == ClassOf(b)
  {
  }

  /** Being in the same class is transitive, so swap compatibility is an equivalence
      on the characters that have a class */
  lemma CanSwapTransitive(a: char, b: char, c: char)
    requires CanSwapChars(a, b) && CanSwapChars(b, c)
    ensures CanSwapChars(a, c)
  {
    CanSwapSameClass(a, b);
    CanSwapSameClass(b, c);
    CanSwapSameClass(a, c);
  }

  lemma CanSwapSymmetric(c1: string, c2: string)
    ensures CanSwap(c1, c2) == CanSwap(c2, c1)
  {
  }

  /** On two single characters the string predicate is the character predicate */
  lemma CanSwapOnChars(a: char, b: char)
    ensures CanSwap([a], [b]) == CanSwapChars(a, b)
  {
  }

  /** An argument longer than one character never swaps; an empty argument swaps with
      the empty string and with every punctuation mark */
  lemma CanSwapLengths(c1: string, c2: string)
    ensures |c1| > 1 || |c2| > 1 ==> !CanSwap(c1, c2)
    ensures c1 == [] && |c2| <= 1 ==> (CanSwap(c1, c2) <==> c2 == [] || c2[0] in Punctuation)
  {
    if |c2| == 1 {
      MarkIsPunctuation(c2[0]);
    }
  }

  lemma CanSwapExamples()
    ensures CanSwap("a", "b") && !CanSwap("a", "1") && !CanSwap("A", "a") && CanSwap("7", "0")
  {
    assert "a" == ['a'] && "1" == ['1'] && "A" == ['A'];
    CanSwapOnChars('a', '1');
    CanSwapOnChars('A', 'a');
  }

  /** Punctuation marks swap with each other and with the empty string; two characters
      never swap with one */
  lemma CanSwapMarks()
    ensures CanSwap("!", "?") && CanSwap("", "!") && !CanSwap("ab", "c")
  {
    assert Punctuation[0] == '!' && Punctuation[29] == '?';
    assert "!" == ['!'] && "?" == ['?'];
  }
}
