/**
 * The fixed-width integer semantics of the C++ source: `int` is a signed
 * 32-bit integer, and `/`, `%` and `std::div` truncate toward zero.
 */
module CInt {
  const INT_MIN: int := -0x8000_0000
  const INT_MAX: int := 0x7FFF_FFFF

  /** A C++ `int`. Arithmetic on it that leaves the range is undefined in C++. */
  newtype int32 = x: int | -0x8000_0000 <= x < 0x8000_0000

  predicate InInt32(x: int) {
    INT_MIN <= x <= INT_MAX
  }

  function Abs(x: int): nat {
    if x < 0 then -x else x
  }

  /** C++ integer division `a / b`: the quotient truncated toward zero. */
  function CDiv(a: int, b: int): (q: int)
    requires b != 0
    ensures a >= 0 && b > 0 ==> q == a / b
  {
    if a >= 0 && b > 0 then a / b
    else if a >= 0 then -(a / -b)
    else if b > 0 then -((-a) / b)
    else (-a) / (-b)
  }

  /** C++ remainder `a % b`: it carries the sign of `a`, unlike Euclidean `%`. */
  function CRem(a: int, b: int): (r: int)
    requires b != 0
    ensures Abs(r) < Abs(b)
    ensures a >= 0 ==> r >= 0
    ensures a <= 0 ==> r <= 0
    ensures a >= 0 && b > 0 ==> r == a % b
  {
    if a >= 0 && b > 0 then a % b
    else if a >= 0 then a % -b
    else if b > 0 then -((-a) % b)
    else -((-a) % (-b))
  }

  /** The C++ identity `(a / b) * b + a % b == a`. */
  lemma TruncatedDivision(a: int, b: int)
    requires b != 0
    ensures CDiv(a, b) * b + CRem(a, b) == a
  {
    var x, y := Abs(a), Abs(b);
    var d, m := x / y, x % y;
    assert x == d * y + m;
    if a >= 0 && b > 0 {
      assert CDiv(a, b) == d && CRem(a, b) == m;
    } else if a >= 0 {
      assert CDiv(a, b) == -d && CRem(a, b) == m;
      assert -d * b == d * y;
    } else if b > 0 {
      assert CDiv(a, b) == -d && CRem(a, b) == -m;
    } else {
      assert CDiv(a, b) == d && CRem(a, b) == -m;
      assert d * b == -(d * y);
    }
  }
}
