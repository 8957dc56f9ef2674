/**
 * Java's fixed-width integers and integer operators, written out explicitly.
 * Dafny integers are unbounded and its `/` and `%` are Euclidean; the file
 * system is Java code, whose `int` and `short` wrap around and whose `/` and
 * `%` truncate toward zero.
 */
module JavaInts {

  const TWO_8: int := 0x100
  const TWO_16: int := 0x1_0000
  const TWO_15: int := 0x8000
  const TWO_32: int := 0x1_0000_0000
  const TWO_31: int := 0x8000_0000

  /** A Java `int` value. */
  type int32 = x: int | -0x8000_0000 <= x < 0x8000_0000

  /** A Java `short` value. */
  type short = x: int | -0x8000 <= x < 0x8000

  /** A Java `char`: one UTF-16 code unit. */
  type jchar = x: int | 0 <= x < 0x1_0000

  /** An 8-bit pattern as it sits in a disk block or in a Java `byte[]`, read unsigned. */
  type byte = x: int | 0 <= x < 0x100

  /** Java's narrowing to `int`: the int32 congruent to `x` modulo 2^32. */
  function Int32(x: int): (r: int32)
    ensures -TWO_31 <= x < TWO_31 ==> r == x
  {
    if -TWO_31 <= x < TWO_31 then x
    else
      var u := x % TWO_32;
      if u >= TWO_31 then u - TWO_32 else u
  }

  /** The narrowing keeps `x` modulo 2^32. */
  lemma Int32Wraps(x: int)
    ensures (Int32(x) - x) % TWO_32 == 0
  {
  }

  /** Java's `(short)` cast: the short congruent to `x` modulo 2^16. */
  function Short(x: int): (r: short)
    ensures (r - x) % TWO_16 == 0
    ensures -TWO_15 <= x < TWO_15 ==> r == x
  {
    if -TWO_15 <= x < TWO_15 then x
    else
      var u := x % TWO_16;
      if u >= TWO_15 then u - TWO_16 else u
  }

  /** Java's `/` for a positive divisor: the quotient truncated toward zero. */
  function JDiv(a: int, b: int): int
    requires b > 0
  {
    if a >= 0 then a / b else -((-a) / b)
  }

  /** Java's `%` for a positive divisor: the remainder takes the sign of `a`. */
  function JRem(a: int, b: int): (r: int)
    requires b > 0
    ensures a == JDiv(a, b) * b + r
    ensures a >= 0 ==> 0 <= r < b
    ensures a < 0 ==> -b < r <= 0
  {
    if a >= 0 then a % b else -((-a) % b)
  }

  /** The value of a byte pattern read as a signed Java `byte`. */
  function Signed8(b: bv8): (r: int)
    ensures -128 <= r < 128
    ensures (r - b as int) % TWO_8 == 0
  {
    if b as int >= 128 then b as int - TWO_8 else b as int
  }
}
