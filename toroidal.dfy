/** Wrap-around coordinate arithmetic on one axis of a toroidal grid (add_modulo),
    and the facts about Euclidean division it rests on. */
module Toroidal {

  /** Magnitude of a signed offset (isize::abs, without the isize::MIN corner). */
  function Abs(n: int): nat {
    if n < 0 then -n else n
  }

  /** Division by a positive modulus has exactly one quotient/remainder pair. */
  lemma DivModUnique(a: int, m: int, q: int, r: int)
    requires m > 0 && 0 <= r < m && a == q * m + r
    ensures a / m == q && a % m == r
  {
    var d := q - a / m;
    assert d * m == a % m - r;
    if d > 0 {
      MulAtLeast(d, m);
    } else if d < 0 {
      MulAtLeast(-d, m);
    }
  }

  lemma MulAtLeast(d: int, m: int)
    requires d >= 1 && m > 0
    ensures d * m >= m
  {
  }

  /** Adding a whole number of periods does not change the remainder. */
  lemma ModAddPeriods(a: int, k: int, m: int)
    requires m > 0
    ensures (a + k * m) % m == a % m
  {
    DivModUnique(a + k * m, m, a / m + k, a % m);
  }

  /** `add_modulo(x, y, m)`: move coordinate x by the signed offset y on an axis of
      extent m. The source asserts |y| < m, so an empty axis (m == 0) is always refused.
      The result lies on the axis and is the Euclidean remainder of x + y. */
  function AddModulo(x: nat, y: int, m: nat): (r: nat)
    requires Abs(y) < m
    ensures r < m
    ensures r == (x + y) % m
  {
    var base := x % m + m;
    var delta := if y < 0 then y + m else y;
    AddModuloShift(x, y, m);
    (base + delta) % m
  }

  /** The sum add_modulo reduces differs from x + y by whole periods. */
  lemma AddModuloShift(x: nat, y: int, m: nat)
    requires Abs(y) < m
    ensures (x % m + m + (if y < 0 then y + m else y)) % m == (x + y) % m
  {
    var q := x / m;
    assert x == q * m + x % m;
    var k := if y < 0 then 2 - q else 1 - q;
    assert x % m + m + (if y < 0 then y + m else y) == (x + y) + k * m;
    ModAddPeriods(x + y, k, m);
  }

  /** Stepping back from coordinate 0 lands on the last coordinate of the axis
      (an axis of extent 1 refuses the offset -1). */
  lemma AddModuloWrapsBack(m: nat)
    requires m > 1
    ensures AddModulo(0, -1, m) == m - 1
  {
    DivModUnique(-1, m, -1, m - 1);
  }

  /** A zero offset leaves an on-axis coordinate where it is. */
  lemma AddModuloZero(x: nat, m: nat)
    requires x < m
    ensures AddModulo(x, 0, m) == x
  {
    DivModUnique(x, m, 0, x);
  }

  /** Moving by y and then by -y returns to the starting coordinate. */
  lemma AddModuloCancel(x: nat, y: int, m: nat)
    requires x < m && Abs(y) < m
    ensures AddModulo(AddModulo(x, y, m), -y, m) == x
  {
    UndoRemainder(x, y, m);
  }

  /** Subtracting y from the remainder of x + y leaves x, up to whole periods. */
  lemma UndoRemainder(x: int, y: int, m: int)
    requires m > 0 && 0 <= x < m
    ensures ((x + y) % m - y) % m == x
  {
    var q := (x + y) / m;
    assert (x + y) % m - y == x + (-q) * m;
    ModAddPeriods(x, -q, m);
    DivModUnique(x, m, 0, x);
  }
}
