/** Shared vocabulary: an optional value and the unchecked 32-bit integer
    arithmetic of the platform the dealership service runs on. */
module Base {

  /** A value that may be absent (a nullable reference or an empty claim). */
  datatype Option<+T> = None | Some(value: T)

  const Int32Min: int := -0x8000_0000
  const Int32Max: int := 0x7fff_ffff
  const TwoTo32: int := 0x1_0000_0000

  /** True iff `x` fits a C# `int`. */
  predicate IsInt32(x: int) {
    Int32Min <= x <= Int32Max
  }

  /** The value an unchecked C# `int` operation yields for the exact result `x`:
      two's-complement wrap-around modulo 2^32. */
  function Wrap32(x: int): (r: int)
    ensures IsInt32(r)
    ensures (x - r) % TwoTo32 == 0
    ensures IsInt32(x) ==> r == x
  {
    (x - Int32Min) % TwoTo32 + Int32Min
  }

  function Min(a: int, b: int): int {
    if a <= b then a else b
  }
}
