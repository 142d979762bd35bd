/** Java's 32-bit `int`: quantities in the bookstore are `int`, and `+` on them
    wraps around silently. */
module JavaInt {

  const MIN: int := -0x8000_0000
  const MAX: int := 0x7fff_ffff
  const MODULUS: int := 0x1_0000_0000

  newtype int32 = x: int | -0x8000_0000 <= x < 0x8000_0000

  /** The value of an unbounded integer after truncation to 32 bits, read as a
      signed two's-complement number. */
  function Wrap(x: int): (r: int32)
    ensures MIN <= x <= MAX ==> r as int == x
    ensures (x - r as int) % MODULUS == 0
  {
    var y := (x - MIN) % MODULUS;
    assert x - (y + MIN) == MODULUS * ((x - MIN) / MODULUS);
    (y + MIN) as int32
  }

  /** Java's `a + b` on two `int`s. */
  function Add(a: int32, b: int32): (r: int32)
    ensures MIN <= a as int + b as int <= MAX ==> r as int == a as int + b as int
    ensures a as int + b as int > MAX ==> r as int == a as int + b as int - MODULUS
    ensures a as int + b as int < MIN ==> r as int == a as int + b as int + MODULUS
  {
    WrapOfNearby(a as int + b as int);
    Wrap(a as int + b as int)
  }

  /** A sum of two `int`s is at most one modulus away from the 32-bit range. */
  lemma WrapOfNearby(x: int)
    requires MIN - MODULUS <= x <= MAX + MODULUS
    ensures x > MAX ==> Wrap(x) as int == x - MODULUS
    ensures x < MIN ==> Wrap(x) as int == x + MODULUS
  {
    if x > MAX {
      assert (x - MIN) % MODULUS == x - MIN - MODULUS;
    } else if x < MIN {
      assert (x - MIN) % MODULUS == x - MIN + MODULUS;
    }
  }

  /** Two integers that agree modulo 2^32 truncate to the same `int`. */
  lemma WrapCongruent(x: int, y: int)
    requires (x - y) % MODULUS == 0
    ensures Wrap(x) == Wrap(y)
  {
    var k := (x - y) / MODULUS;
    assert x - MIN == (y - MIN) + k * MODULUS;
    ModShift(y - MIN, k);
  }

  lemma ModShift(a: int, k: int)
    ensures (a + k * MODULUS) % MODULUS == a % MODULUS
  {
    var q := a / MODULUS;
    var r := a % MODULUS;
    assert a + k * MODULUS == (q + k) * MODULUS + r;
  }

  /** Accumulating in an `int` variable is the same as truncating the exact
      sum once at the end: this is what makes a running total of Java `int`s
      equal to the truncated mathematical sum. */
  lemma {:induction false} AddOfWrap(s: int, b: int32)
    ensures Add(Wrap(s), b) == Wrap(s + b as int)
  {
    var w := Wrap(s);
    var k := (s - w as int) / MODULUS;
    assert s - w as int == k * MODULUS;
    ModShift(0, -k);
    assert (w as int + b as int) - (s + b as int) == 0 + (-k) * MODULUS;
    WrapCongruent(w as int + b as int, s + b as int);
  }
}
