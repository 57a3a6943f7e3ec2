/** Definitions every other module uses: an optional value and the widths of the C integer types on x86_64. */
module Prelude {
  datatype Option<+T> = None | Some(value: T)

  /** `size_t` and `unsigned long` count modulo this. */
  const WORD_MOD: nat := 0x1_0000_0000_0000_0000

  /** `unsigned int` counts modulo this. */
  const UINT_MOD: nat := 0x1_0000_0000

  const LONG_MAX: int := 0x7fff_ffff_ffff_ffff
  const LONG_MIN: int := -0x8000_0000_0000_0000

  const INT_MIN: int := -0x8000_0000

  function Max(a: int, b: int): int {
    if a < b then b else a
  }

  function Min(a: int, b: int): int {
    if a < b then a else b
  }

  /** Reading a C string: NUL stands after the last character. */
  function At(s: string, i: nat): char {
    if i < |s| then s[i] else '\0'
  }

  predicate IsDigit(c: char) {
    '0' <= c <= '9'
  }

  /** Conversion to a signed type: the remainder read as a two's complement number. */
  function Signed(w: nat, modulus: nat): int
    requires modulus > 0
  {
    var r := w % modulus;
    if 2 * r < modulus then r else r - modulus
  }
}
