/**
 * The two pieces of JavaScript string semantics the server relies on:
 * the `\s` character class of its regular expressions and
 * `String.prototype.includes`.
 */
module JsText {

  /**
   * JavaScript's `\s`: the ECMAScript WhiteSpace and LineTerminator code points
   * (tab, line feed, vertical tab, form feed, carriage return, space, no-break
   * space, the other Unicode space separators, line and paragraph separator and
   * the byte-order mark). On a binary string, whose characters are 0..255, this
   * is the set {9, 10, 11, 12, 13, 32, 160}.
   */
  predicate IsSpace(c: char) {
    var n := c as int;
    (0x09 <= n <= 0x0D) || n == 0x20 || n == 0xA0 || n == 0x1680
    || (0x2000 <= n <= 0x200A) || n == 0x2028 || n == 0x2029
    || n == 0x202F || n == 0x205F || n == 0x3000 || n == 0xFEFF
  }

  /** On a binary string, whose characters are 0..255, `\s` holds exactly for 9, 10, 11, 12, 13, 32 and 160. */
  lemma BinaryStringSpaces(c: char)
    requires c as int < 256
    ensures IsSpace(c) <==> c as int in {9, 10, 11, 12, 13, 32, 160}
  {
  }

  /** `needle` occurs in `s` starting at index `i`. */
  predicate OccursAt(s: string, needle: string, i: int) {
    0 <= i && i + |needle| <= |s| && s[i..i + |needle|] == needle
  }

  /**
   * The search behind `s.includes(needle)`, trying the start positions
   * `from`, `from + 1`, ... in turn; the comparison is case-sensitive.
   */
  function IncludesFrom(s: string, needle: string, from: nat): (b: bool)
    ensures b <==> exists i :: from <= i && OccursAt(s, needle, i)
    decreases |s| - from
  {
    if from + |needle| > |s| then false
    else OccursAt(s, needle, from) || IncludesFrom(s, needle, from + 1)
  }

  /** `s.includes(needle)`: true exactly when `needle` is a substring of `s`. */
  function Includes(s: string, needle: string): (b: bool)
    ensures b <==> exists i :: OccursAt(s, needle, i)
  {
    IncludesFrom(s, needle, 0)
  }
}
