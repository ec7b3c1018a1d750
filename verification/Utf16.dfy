/** Texts as JavaScript sees them: sequences of UTF-16 code units. */
module Utf16 {

  type CodeUnit = c: int | 0 <= c < 0x1_0000

  type Text = seq<CodeUnit>

  /** White space: what `\s` matches and `trim` removes. */
  predicate IsSpaceUnit(c: int) {
    || 0x09 <= c <= 0x0D || c == 0x20 || c == 0xA0 || c == 0x1680 || 0x2000 <= c <= 0x200A
    || c == 0x2028 || c == 0x2029 || c == 0x202F || c == 0x205F || c == 0x3000 || c == 0xFEFF
  }
}
