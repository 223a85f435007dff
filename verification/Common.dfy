/** Small value types shared by the models. */
module Common {

  datatype Option<+T> = None | Some(value: T) {
    function GetOr(default: T): T {
      match this
      case Some(v) => v
      case None => default
    }
  }

  const U64_MAX: int := 0xFFFF_FFFF_FFFF_FFFF
  const U32_MAX: int := 0xFFFF_FFFF
  const I64_MAX: int := 0x7FFF_FFFF_FFFF_FFFF

  type u64 = x: int | 0 <= x <= U64_MAX
  type u32 = x: int | 0 <= x <= U32_MAX
  type i64 = x: int | -I64_MAX - 1 <= x <= I64_MAX
  type byte = x: int | 0 <= x < 256

  function Repeat<T>(x: T, n: nat): (s: seq<T>)
    ensures |s| == n && forall i :: 0 <= i < n ==> s[i] == x
  {
    if n == 0 then [] else Repeat(x, n - 1) + [x]
  }

  function Max(a: int, b: int): int {
    if a < b then b else a
  }

  /** `u64::saturating_add`. */
  function SaturatingAdd(a: u64, b: u64): u64 {
    if a + b <= U64_MAX then a + b else U64_MAX
  }

  /** The cast `value as i64` of a u64. */
  function AsI64(value: u64): i64 {
    if value <= I64_MAX then value else value - U64_MAX - 1
  }

  /** How a signed column is read back: `column.max(0) as u64`. */
  function FromI64(column: i64): u64 {
    if column < 0 then 0 else column
  }
}
