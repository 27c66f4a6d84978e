/**
 * Java's 32-bit `int` arithmetic written out on Dafny's unbounded integers:
 * two's-complement wrap-around, truncating division and the saturating
 * float-to-int cast.
 */
module JavaInt {

  const MIN_VALUE: int := -0x8000_0000
  const MAX_VALUE: int := 0x7fff_ffff
  const MODULUS: int := 0x1_0000_0000

  predicate IsInt(x: int) {
    MIN_VALUE <= x <= MAX_VALUE
  }

  /** The int that a wider integer (a long, an overflowing product) narrows to. */
  function Wrap(x: int): (r: int)
    ensures IsInt(r)
    ensures (x - r) % MODULUS == 0
    ensures IsInt(x) ==> r == x
  {
    (x - MIN_VALUE) % MODULUS + MIN_VALUE
  }

  function Abs(x: int): nat {
    if x < 0 then -x else x
  }

  /**
   * Java's `a / b` on ints: the quotient truncated toward zero, except that
   * MIN_VALUE / -1 overflows back to MIN_VALUE.
   */
  function Div(a: int, b: int): (q: int)
    requires b != 0
    ensures IsInt(q)
    ensures IsInt(a) && IsInt(b) && !(a == MIN_VALUE && b == -1) ==>
      && Abs(b) * Abs(q) <= Abs(a) < Abs(b) * Abs(q) + Abs(b)
      && (q == 0 || (q < 0 <==> (a < 0) != (b < 0)))
    ensures a == MIN_VALUE && b == -1 ==> q == MIN_VALUE
  {
    var m := Abs(a) / Abs(b);
    QuotientInRange(a, b);
    Wrap(if (a < 0) == (b < 0) then m else -m)
  }

  /** The truncated quotient's magnitude, and when it fits an int. */
  lemma QuotientInRange(a: int, b: int)
    requires b != 0
    ensures var m := Abs(a) / Abs(b);
      Abs(b) * m <= Abs(a) < Abs(b) * m + Abs(b) && 0 <= m <= Abs(a)
    ensures var m := Abs(a) / Abs(b);
      IsInt(a) && IsInt(b) && !(a == MIN_VALUE && b == -1) ==> IsInt(if (a < 0) == (b < 0) then m else -m)
  {
    var n, d := Abs(a), Abs(b);
    var m := n / d;
    QuotientBounds(n, d);
    QuotientAtMost(n, d);
    if IsInt(a) && IsInt(b) && !(a == MIN_VALUE && b == -1) {
      assert n <= MAX_VALUE + 1;
      if d != 1 {
        assert m <= MAX_VALUE;
      }
    }
  }

  lemma QuotientAtMost(n: int, d: int)
    requires n >= 0 && d >= 1
    ensures 0 <= n / d <= n
    ensures d == 1 ==> n / d == n
    ensures d >= 2 ==> 2 * (n / d) <= n
  {
    var m := n / d;
    QuotientBounds(n, d);
    if m < 0 {
      ScaleMonotone(d, m, -1);
    }
    if d >= 2 && m > 0 {
      ScaleMonotone(m, 2, d);
    } else if m > 0 {
      ScaleMonotone(m, 1, d);
    }
  }

  lemma QuotientBounds(n: int, d: int)
    requires d > 0
    ensures d * (n / d) <= n < d * (n / d) + d
  {
  }

  /** Multiplying by a positive factor keeps the order: the step Z3 does not take alone. */
  lemma ScaleMonotone(d: int, x: int, y: int)
    requires d > 0 && x <= y
    ensures d * x <= d * y
  {
    assert d * y - d * x == d * (y - x);
  }

  /** Clamps to the int range, as the float-to-int conversions do. */
  function Saturate(x: int): (r: int)
    ensures IsInt(r)
    ensures IsInt(x) ==> r == x
  {
    if x < MIN_VALUE then MIN_VALUE else if x > MAX_VALUE then MAX_VALUE else x
  }

  /** The `(int)` cast of a float or double: truncation toward zero, then saturation. */
  function FromReal(x: real): (r: int)
    ensures IsInt(r)
    ensures 0.0 <= x < (MAX_VALUE + 1) as real ==> r == x.Floor
  {
    Saturate(if x >= 0.0 then x.Floor else -((-x).Floor))
  }
}
