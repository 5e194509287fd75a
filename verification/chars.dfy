/** Character helpers of the cipher: the ASCII case tests, the shift of a letter
    around its 26-letter ring, and the five-way classification of a plain-text
    character that decides which shift rule applies to it. */
module Chars {

  /** ASCII lower-case test: true exactly for the 26 code points 'a' to 'z'. */
  predicate IsLower(c: char): (b: bool)
    ensures b <==> 0 <= c as int - 'a' as int < 26
    ensures b ==> !('A' <= c <= 'Z')
  {
    'a' <= c <= 'z'
  }

  /** ASCII upper-case test: true exactly for the 26 code points 'A' to 'Z'. */
  predicate IsUpper(c: char): (b: bool)
    ensures b <==> 0 <= c as int - 'A' as int < 26
    ensures b ==> !('a' <= c <= 'z')
  {
    'A' <= c <= 'Z'
  }

  predicate IsLetter(c: char) { IsLower(c) || IsUpper(c) }

  /** Two characters are in the same case class: both lower-case letters, both
      upper-case letters, or both non-letters. */
  predicate SameCase(c: char, d: char) {
    (IsLower(c) <==> IsLower(d)) && (IsUpper(c) <==> IsUpper(d))
  }

  /** Position of a letter on the ring of its own case: 'a' and 'A' are 0, 'z' and 'Z' are 25. */
  function Offset(c: char): (k: nat)
    requires IsLetter(c)
    ensures k < 26
  {
    if IsLower(c) then c as int - 'a' as int else c as int - 'A' as int
  }

  /** Shifts a letter by `shift` places around the ring of its own case; any other
      character is returned unchanged. The remainder is the non-negative one, so a
      negative shift moves backwards. */
  function ShiftChar(c: char, shift: int): (r: char)
    ensures SameCase(r, c)
    ensures !IsLetter(c) ==> r == c
    ensures IsLetter(c) ==> Offset(r) == (Offset(c) + shift) % 26
  {
    if IsLower(c) then
      ((c as int - 'a' as int + shift) % 26 + 'a' as int) as char
    else if IsUpper(c) then
      ((c as int - 'A' as int + shift) % 26 + 'A' as int) as char
    else
      c
  }

  /** Shifting by `k` and then by `-k` gives back the character, for every character
      and every integer `k`. */
  lemma ShiftRoundTrip(c: char, k: int)
    ensures ShiftChar(ShiftChar(c, k), -k) == c
  {
  }

  /** A shift by a multiple of 26 leaves every character as it is. */
  lemma ShiftByMultipleOf26(c: char, k: int)
    requires k % 26 == 0
    ensures ShiftChar(c, k) == c
  {
  }

  /** The metadata code of a plain-text character: which half of which case's
      alphabet it is in, or neither. */
  datatype Code = L1 | L2 | U1 | U2 | O

  /** Classification is total and exhaustive: every character receives exactly one
      code, and each code stands for exactly the characters listed. */
  function Classify(c: char): (k: Code)
    ensures k == L1 <==> 'a' <= c <= 'm'
    ensures k == L2 <==> 'n' <= c <= 'z'
    ensures k == U1 <==> 'A' <= c <= 'M'
    ensures k == U2 <==> 'N' <= c <= 'Z'
    ensures k == O <==> !IsLetter(c)
  {
    if IsLower(c) then
      (if 'a' <= c <= 'm' then L1 else L2)
    else if IsUpper(c) then
      (if 'A' <= c <= 'M' then U1 else U2)
    else
      O
  }
}
