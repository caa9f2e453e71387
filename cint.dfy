/** The C `int` arithmetic the widget relies on: the 32-bit range and
    division that truncates toward zero. */
module CInt {

  const MinInt: int := -0x8000_0000
  const MaxInt: int := 0x7FFF_FFFF

  /** A value that a C `int` can hold. */
  predicate InInt32(x: int) {
    MinInt <= x <= MaxInt
  }

  type Int32 = x: int | InInt32(x)

  function Abs(x: int): nat {
    if x < 0 then -x else x
  }

  function Max(a: int, b: int): int {
    if a < b then b else a
  }

  function Min(a: int, b: int): int {
    if a < b then a else b
  }

  /** C's `a / b`: the quotient is truncated toward zero, so the remainder
      `a - q * b` is smaller than the divisor in magnitude and has the sign
      of the dividend. */
  function Div(a: int, b: int): (q: int)
    requires b != 0
    ensures Abs(a - q * b) < Abs(b)
    ensures a - q * b == 0 || (a - q * b < 0 <==> a < 0)
  {
    var m := Abs(a) / Abs(b);
    DivModAbs(a, b, m);
    if (a < 0) == (b < 0) then m else -m
  }

  lemma DivModAbs(a: int, b: int, m: int)
    requires b != 0 && m == Abs(a) / Abs(b)
    ensures var q := if (a < 0) == (b < 0) then m else -m;
            Abs(a - q * b) == Abs(a) - m * Abs(b) < Abs(b)
            && (a - q * b == 0 || (a - q * b < 0 <==> a < 0))
  {
    var r := Abs(a) - m * Abs(b);
    assert 0 <= r < Abs(b);
    var q := if (a < 0) == (b < 0) then m else -m;
    if a >= 0 && b > 0 {
      assert q * b == m * Abs(b);
    } else if a >= 0 && b < 0 {
      assert q * b == -m * b == m * Abs(b);
    } else if a < 0 && b > 0 {
      assert q * b == -m * b == -(m * Abs(b));
    } else {
      assert q * b == m * b == -(m * Abs(b));
    }
  }
}
