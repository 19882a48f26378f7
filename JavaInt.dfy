/** Java `int` semantics the engine and the example key rely on: two's-complement
    wrap-around, `Math.abs` and the truncating remainder `%`; and the two ways an operation
    of the engine can fail to return normally. */
module JavaInt {

  /** A Java `int`. */
  type Int32 = x: int | -0x8000_0000 <= x < 0x8000_0000

  /** One byte of the off-heap region, unsigned. */
  type Byte = b: int | 0 <= b < 0x100

  const MIN_VALUE: Int32 := -0x8000_0000
  const MAX_VALUE: Int32 := 0x7FFF_FFFF

  /** The Java `int` that arithmetic on `x` wraps around to. */
  function Wrap(x: int): (r: Int32)
    ensures (x - r) % 0x1_0000_0000 == 0
    ensures MIN_VALUE <= x <= MAX_VALUE ==> r == x
  {
    var m := x % 0x1_0000_0000;
    if m <= MAX_VALUE then m else m - 0x1_0000_0000
  }

  /** A Java `long`. */
  type Int64 = x: int | -0x8000_0000_0000_0000 <= x < 0x8000_0000_0000_0000

  /** The Java `long` that arithmetic on `x` wraps around to. */
  function Wrap64(x: int): (r: Int64)
    ensures (x - r) % 0x1_0000_0000_0000_0000 == 0
    ensures -0x8000_0000_0000_0000 <= x < 0x8000_0000_0000_0000 ==> r == x
  {
    var m := x % 0x1_0000_0000_0000_0000;
    if m < 0x8000_0000_0000_0000 then m else m - 0x1_0000_0000_0000_0000
  }

  /** `Math.abs(int)`: non-negative except at MIN_VALUE, whose negation wraps back to itself. */
  function Abs(x: Int32): (r: Int32)
    ensures x != MIN_VALUE ==> 0 <= r && (r == x || r == -x)
    ensures x == MIN_VALUE ==> r == MIN_VALUE
  {
    if x < 0 then Wrap(-(x as int)) else x
  }

  /** Java's `%`: the remainder takes the sign of the dividend (it truncates toward zero,
      where Dafny's `%` is Euclidean). */
  function Rem(a: int, m: int): (r: int)
    requires m > 0
    ensures 0 <= a ==> 0 <= r < m && r == a % m
    ensures a < 0 ==> -m < r <= 0 && r == -((-a) % m)
  {
    if a >= 0 then a % m else -((-a) % m)
  }

  /** How an operation ends without a value: an `IndexOutOfBoundsException` from a bounds-checked
      buffer access, an `IllegalArgumentException` from an `Int2IntHashMap` asked to store its
      missing value, or a loop that never terminates. */
  datatype Error = OutOfBounds | IllegalArgument | Diverges

  datatype Result<T> = Ok(value: T) | Err(error: Error)
}
