/** The C++ integer types by their ranges, and byte strings. */
module CTypes {
  type uint8 = x: int | 0 <= x < 0x100
  type uint16 = x: int | 0 <= x < 0x1_0000
  type uint32 = x: int | 0 <= x < 0x1_0000_0000
  type uint64 = x: int | 0 <= x < 0x1_0000_0000_0000_0000
  type int32 = x: int | -0x8000_0000 <= x < 0x8000_0000

  type Text = seq<uint8>

  datatype Option<+T> = None | Some(value: T)

  /** Two's complement: what is left of x in a signed 32-bit variable. */
  function Wrap32(x: int): int32 {
    if -0x8000_0000 <= x < 0x8000_0000 then x
    else (x + 0x8000_0000) % 0x1_0000_0000 - 0x8000_0000
  }

  /** Conversion of a signed 32-bit value to unsigned. */
  function AsUnsigned32(x: int): uint32 {
    x % 0x1_0000_0000
  }

  /** Two's complement negation; the least value is its own negative. */
  function Negated32(x: int32): int32 {
    Wrap32(-(x as int))
  }

  function Magnitude(x: int): nat {
    if x < 0 then -x else x
  }

  predicate IsDigit(c: int) {
    '0' as int <= c <= '9' as int
  }

  function Min(a: int, b: int): int {
    if a < b then a else b
  }
}
