/**
 * Java's 32-bit `int`: its range, its two's-complement wrap-around and its
 * division, which rounds toward zero.
 */
module JavaInt {

  const MIN_VALUE: int := -0x8000_0000
  const MAX_VALUE: int := 0x7FFF_FFFF
  const TWO_32: int := 0x1_0000_0000

  type Int32 = x: int | MIN_VALUE <= x <= MAX_VALUE

  /** The `int` that Java's arithmetic yields when the exact result is `x`. */
  function Wrap(x: int): (r: Int32)
    ensures (x - r) % TWO_32 == 0
    ensures MIN_VALUE <= x <= MAX_VALUE ==> r == x
  {
    (x - MIN_VALUE) % TWO_32 + MIN_VALUE
  }

  /** Wrapping after every addition is the same as wrapping once at the end. */
  lemma WrapAdd(a: int, b: int)
    ensures Wrap(Wrap(a) + b) == Wrap(a + b)
  {
    var q := (a - MIN_VALUE) / TWO_32;
    assert Wrap(a) == a - q * TWO_32;
    assert Wrap(a) + b - MIN_VALUE == (a + b - MIN_VALUE) - q * TWO_32;
  }

  /** Java's `a / 2`, which rounds toward zero. */
  function Half(a: int): (r: int)
    ensures a >= 0 ==> 2 * r <= a <= 2 * r + 1
    ensures a < 0 ==> 2 * r - 1 <= a <= 2 * r
  {
    if a >= 0 then a / 2 else -((-a) / 2)
  }
}
