/**
 * Character classes and case mapping used by the registry's string handling:
 * `String.prototype.toLowerCase`, the regular-expression classes `\w` and
 * `[0-9]`, and the letter range of the forbidden-word form.
 */
module Text {

  /** An ASCII digit, the class `[0-9]` (and `\d` without the `u` flag). */
  predicate IsDigit(c: char)
  {
    '0' <= c <= '9'
  }

  /** A character of the class `\w`: `[A-Za-z0-9_]`, ASCII only. */
  predicate IsAsciiWordChar(c: char)
  {
    'a' <= c <= 'z' || 'A' <= c <= 'Z' || IsDigit(c) || c == '_'
  }

  /** A letter of ASCII, Latin-1 or Latin Extended-A (U+00C0..U+017F without the signs U+00D7 and U+00F7). */
  predicate IsLetter(c: char)
  {
    'a' <= c <= 'z' || 'A' <= c <= 'Z' || (0xC0 <= c as int <= 0x17F && c as int != 0xD7 && c as int != 0xF7)
  }

  /**
   * An upper-case letter that `toLowerCase` maps to a single character one
   * step away: ASCII A-Z, the Latin-1 capitals U+00C0..U+00DE except U+00D7,
   * and the capitals of Latin Extended-A (U+0100..U+017E), which alternate
   * with their small letters. U+0130 is left out: JavaScript lowers it to two
   * characters.
   */
  predicate IsUpperLetter(c: char)
  {
    var n := c as int;
    ('A' <= c <= 'Z')
    || (0xC0 <= n <= 0xDE && n != 0xD7)
    || (0x100 <= n <= 0x137 && n % 2 == 0 && n != 0x130)
    || (0x139 <= n <= 0x148 && n % 2 == 1)
    || (0x14A <= n <= 0x177 && n % 2 == 0)
    || n == 0x178
    || (0x179 <= n <= 0x17E && n % 2 == 1)
  }

  /** One character of `toLowerCase`. */
  function LowerChar(c: char): (r: char)
    ensures !IsUpperLetter(r)
    ensures !IsUpperLetter(c) ==> r == c
    ensures IsAsciiWordChar(r) <==> IsAsciiWordChar(c)
    ensures IsLetter(r) <==> IsLetter(c)
    ensures (c as int < 0x180) <==> (r as int < 0x180)
  {
    var n := c as int;
    if !IsUpperLetter(c) then c
    else if 'A' <= c <= 'Z' || 0xC0 <= n <= 0xDE then (n + 32) as char
    else if n == 0x178 then 0xFF as char
    else (n + 1) as char
  }

  /** `toLowerCase`, character by character. */
  function Lower(s: string): (r: string)
  {
    seq(|s|, i requires 0 <= i < |s| => LowerChar(s[i]))
  }

  /** Lower-casing keeps the length, leaves no capital behind and is idempotent. */
  lemma LowerIsLowerCase(s: string)
    ensures |Lower(s)| == |s|
    ensures forall i :: 0 <= i < |s| ==> !IsUpperLetter(Lower(s)[i])
    ensures Lower(Lower(s)) == Lower(s)
  {
  }

  /** A string that `toLowerCase` leaves as it is. */
  predicate IsLowerCase(s: string)
  {
    Lower(s) == s
  }

  /** Lower-casing distributes over concatenation. */
  lemma LowerConcat(a: string, b: string)
    ensures Lower(a + b) == Lower(a) + Lower(b)
  {
  }
}
