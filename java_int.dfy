/** Java's 32-bit `int` arithmetic, as far as the anagram jobs rely on it:
    wrap-around of `int` overflow, the truncating remainder operator `%`,
    and the bitwise mask `h & Integer.MAX_VALUE`. */
module JavaInt {

  const TwoTo31: int := 0x8000_0000
  const TwoTo32: int := 0x1_0000_0000

  /** The values a Java `int` can hold. */
  predicate IsInt32(x: int) {
    -TwoTo31 <= x < TwoTo31
  }

  /** Java's silent overflow: the unique `int` congruent to `x` modulo 2^32. */
  function Wrap32(x: int): (r: int)
    ensures IsInt32(r)
    ensures (x - r) % TwoTo32 == 0
    ensures IsInt32(x) ==> r == x
  {
    (x + TwoTo31) % TwoTo32 - TwoTo31
  }

  /** Wrapping forgets multiples of 2^32: two congruent values wrap to the same `int`. */
  lemma WrapCongruent(x: int, y: int, q: int)
    requires x == y + q * TwoTo32
    ensures Wrap32(x) == Wrap32(y)
  {
    var a := y + TwoTo31;
    var b := a % TwoTo32;
    var d := a / TwoTo32;
    assert a == d * TwoTo32 + b;
    assert x + TwoTo31 == (d + q) * TwoTo32 + b;
    DivModUnique(x + TwoTo31, d + q, b);
  }

  /** Euclidean division is determined by any quotient/remainder pair with remainder in range. */
  lemma DivModUnique(a: int, q: int, r: int)
    requires 0 <= r < TwoTo32
    requires a == q * TwoTo32 + r
    ensures a % TwoTo32 == r
  {
    var q' := a / TwoTo32;
    var r' := a % TwoTo32;
    assert a == q' * TwoTo32 + r';
    assert (q - q') * TwoTo32 == r' - r;
    assert -TwoTo32 < r' - r < TwoTo32;
  }

  function Abs(x: int): nat {
    if x < 0 then -x else x
  }

  /** Java's `a % b` on `int`: it truncates toward zero, so a non-zero result has
      the sign of the dividend `a` (unlike Dafny's Euclidean `%`). A zero divisor
      throws `ArithmeticException` in Java; callers here never pass one. */
  function Rem(a: int, b: int): (r: int)
    requires b != 0
    ensures Abs(r) < Abs(b)
    ensures a >= 0 ==> 0 <= r
    ensures a <= 0 ==> r <= 0
    ensures Abs(r) == Abs(a) % Abs(b)
  {
    var m := Abs(a) % Abs(b);
    if a >= 0 then m else -m
  }

  /** Java's `x & Integer.MAX_VALUE` on an `int`: clears the sign bit, i.e. adds
      2^31 to a negative value. */
  function ClearSignBit(x: int): (r: int)
    requires IsInt32(x)
    ensures 0 <= r < TwoTo31
    ensures (x - r) % TwoTo31 == 0
  {
    if x < 0 then x + TwoTo31 else x
  }
}
