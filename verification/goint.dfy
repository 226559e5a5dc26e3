/**
 * Go's `int64`: values are bounded and `+`, `-` and unary `-` wrap around
 * modulo 2^64 instead of failing.
 */
module GoInt {

  const MIN: int := -0x8000_0000_0000_0000
  const MAX: int := 0x7fff_ffff_ffff_ffff
  const MODULUS: int := 0x1_0000_0000_0000_0000

  type int64 = x: int | MIN <= x <= MAX

  /** Two's-complement truncation of a mathematical integer to 64 bits. */
  function Wrap(x: int): (r: int64)
    ensures (x - r) % MODULUS == 0
    ensures MIN <= x <= MAX ==> r == x
  {
    (x - MIN) % MODULUS + MIN
  }

  /**
   * The values an `int64` can hold: the same bounds as the type's constraint,
   * which is written out there so that range checks do not have to unfold a
   * predicate.
   */
  predicate InRange(x: int) {
    MIN <= x <= MAX
  }

  function Add(a: int64, b: int64): (r: int64)
    ensures InRange(a + b) ==> r == a + b
    ensures (a + b - r) % MODULUS == 0
  {
    Wrap(a as int + b)
  }

  function Sub(a: int64, b: int64): (r: int64)
    ensures InRange(a - b) ==> r == a - b
    ensures (a - b - r) % MODULUS == 0
  {
    Wrap(a as int - b)
  }

  function Neg(a: int64): (r: int64)
    ensures a != MIN ==> r == -a
    ensures a == MIN ==> r == MIN
  {
    Wrap(-(a as int))
  }

  /** Integers that differ by a multiple of 2^64 truncate to the same int64. */
  lemma {:induction false} WrapCongruent(x: int, y: int)
    requires (x - y) % MODULUS == 0
    ensures Wrap(x) == Wrap(y)
  {
    var k := (x - y) / MODULUS;
    assert x - MIN == (y - MIN) + k * MODULUS;
    ModShift(y - MIN, k);
  }

  lemma {:induction false} ModShift(a: int, k: int)
    ensures (a + k * MODULUS) % MODULUS == a % MODULUS
  {
    var q := a / MODULUS;
    var r := a % MODULUS;
    assert a == q * MODULUS + r;
    assert a + k * MODULUS == (q + k) * MODULUS + r;
  }

  /** A negated value added back to the original wraps to zero, for every int64. */
  lemma NegCancels(a: int64)
    ensures Add(Neg(a), a) == 0
  {
  }

  /**
   * Moving `c` from one int64 to another leaves their wrapped sum unchanged,
   * and their exact sum unchanged when neither move overflows.
   */
  lemma MoveConserves(a: int64, b: int64, c: int64)
    ensures Add(Sub(a, c), Add(b, c)) == Add(a, b)
    ensures InRange(a - c) && InRange(b + c) ==> Sub(a, c) + Add(b, c) == a + b
  {
    var x, y := Sub(a, c), Add(b, c);
    var i := (a - c - x) / MODULUS;
    var j := (b + c - y) / MODULUS;
    assert a - c - x == i * MODULUS;
    assert b + c - y == j * MODULUS;
    assert (x + y) - (a + b) == -(i + j) * MODULUS;
    WrapCongruent(x + y, a + b);
  }

  /** Subtracting a nonzero int64 always changes the value, even with wrap-around. */
  lemma SubChanges(a: int64, c: int64)
    requires c != 0
    ensures Sub(a, c) != a
  {
  }
}
