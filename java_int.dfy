/** Java's 32-bit `int`: its range and the two's-complement wrap-around of
    `+` and `-`. The list's `size` field and every index argument are Java ints. */
module JavaInt {

  const MIN: int := -0x8000_0000
  const MAX: int := 0x7fff_ffff

  /** The values a Java `int` can hold. */
  predicate IsInt(x: int) {
    MIN <= x <= MAX
  }

  /** The Java `int` that an exact result `x` wraps to (reduction modulo 2^32
      into the signed range). */
  function Wrap(x: int): (r: int)
    ensures IsInt(r)
    ensures IsInt(x) ==> r == x
    ensures MAX < x <= MAX + 0x1_0000_0000 ==> r == x - 0x1_0000_0000
    ensures MIN - 0x1_0000_0000 <= x < MIN ==> r == x + 0x1_0000_0000
  {
    (x - MIN) % 0x1_0000_0000 + MIN
  }
}
