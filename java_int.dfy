/** Java's 32-bit `int`: the range of values and the two's-complement
    wraparound that every `+`, `-` and `*` on `int` performs. */
module JavaInt {

  const MIN_VALUE: int := -0x8000_0000
  const MAX_VALUE: int := 0x7fff_ffff
  /** 2^32, the modulus of Java `int` arithmetic. */
  const MODULUS: int := 0x1_0000_0000

  type int32 = v: int | MIN_VALUE <= v <= MAX_VALUE

  /** The Java `int` that a mathematical result wraps to: the unique value of
      the 32-bit range congruent to `v` modulo 2^32. */
  function Wrap(v: int): (r: int32)
    ensures (r - v) % MODULUS == 0
    ensures MIN_VALUE <= v <= MAX_VALUE ==> r == v
  {
    (v - MIN_VALUE) % MODULUS + MIN_VALUE
  }

  /** Wrapping forgets exactly the multiples of 2^32: congruent values wrap
      to the same `int`. */
  lemma WrapCongruent(u: int, v: int)
    requires (u - v) % MODULUS == 0
    ensures Wrap(u) == Wrap(v)
  {
    var q := (u - v) / MODULUS;
    assert u - MIN_VALUE == (v - MIN_VALUE) + MODULUS * q;
    ModShift(v - MIN_VALUE, q);
  }

  lemma {:induction false} ModShift(a: int, q: int)
    ensures (a + MODULUS * q) % MODULUS == a % MODULUS
  {
    var r := a % MODULUS;
    var d := a / MODULUS;
    assert a == MODULUS * d + r;
    assert a + MODULUS * q == MODULUS * (d + q) + r;
  }

  /** Multiplying a multiple of 2^32 by anything gives a multiple of 2^32. */
  lemma ScaleMultiple(d: int, s: int)
    requires d % MODULUS == 0
    ensures (s * d) % MODULUS == 0
  {
    var q := d / MODULUS;
    assert d == MODULUS * q;
    assert s * d == MODULUS * (s * q);
    ModShift(0, s * q);
  }
}
