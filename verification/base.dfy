/** Definitions shared by every model in this project: Rust's `Option`, the
    fixed-width integer types the exercises use, and sequence reversal. */
module Base {

  /** Rust's `Option<T>`. */
  datatype Option<+T> = None | Some(value: T)

  const I32_MIN: int := -0x8000_0000
  const I32_MAX: int := 0x7FFF_FFFF
  const U32_MAX: int := 0xFFFF_FFFF
  const U64_MAX: int := 0xFFFF_FFFF_FFFF_FFFF

  predicate InI32(x: int) { I32_MIN <= x <= I32_MAX }

  /** Rust `i32`. */
  type i32 = x: int | I32_MIN <= x <= I32_MAX

  /** Rust `u32`. */
  type u32 = x: int | 0 <= x <= U32_MAX

  /** Rust `u64`. */
  type u64 = x: int | 0 <= x <= U64_MAX

  /** Reversal of a sequence, element by element. */
  function Reverse<T>(s: seq<T>): (r: seq<T>)
    ensures |r| == |s|
    ensures forall i :: 0 <= i < |s| ==> r[i] == s[|s| - 1 - i]
  {
    if |s| == 0 then [] else Reverse(s[1..]) + [s[0]]
  }
}
