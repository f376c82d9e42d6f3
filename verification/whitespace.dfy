/** The whitespace set shared by the regular-expression class `\s` and by
    `String.prototype.trim`: the WhiteSpace and LineTerminator code points of
    ECMA-262 (2023 edition), sections 12.2 and 12.3. The space separators
    (general category Zs) are those of Unicode 15. */
module Whitespace {

  /** True iff `c` matches `\s`. */
  predicate IsWs(c: char) {
    var n := c as int;
    // WhiteSpace: TAB, VT, FF, ZWNBSP
    || n == 0x0009 || n == 0x000B || n == 0x000C || n == 0xFEFF
    // LineTerminator: LF, CR, LS, PS
    || n == 0x000A || n == 0x000D || n == 0x2028 || n == 0x2029
    // USP: the Zs space separators
    || n == 0x0020 || n == 0x00A0 || n == 0x1680
    || (0x2000 <= n <= 0x200A)
    || n == 0x202F || n == 0x205F || n == 0x3000
  }

  /** No character of `s` is whitespace. */
  predicate NoWs(s: string) {
    forall i :: 0 <= i < |s| ==> !IsWs(s[i])
  }

  /** Every character of `s` is whitespace (vacuously so for the empty string). */
  predicate AllWs(s: string) {
    forall i :: 0 <= i < |s| ==> IsWs(s[i])
  }

  /** A string that has a non-whitespace first and last character. */
  predicate TightEnds(s: string) {
    |s| > 0 && !IsWs(s[0]) && !IsWs(s[|s| - 1])
  }
}
