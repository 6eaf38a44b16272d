/**
 * The C++ `int` the expression tree computes with: a 32-bit signed integer
 * whose overflow is undefined behaviour, and whose `/` truncates toward zero.
 */
module CInt {
  const Int32Min: int := -0x8000_0000
  const Int32Max: int := 0x7fff_ffff

  /** `x` is a value of a 32-bit `int` */
  predicate InInt32(x: int) {
    Int32Min <= x <= Int32Max
  }

  function Abs(x: int): nat {
    if x < 0 then -x else x
  }

  /**
   * C++ integer division `a / b`: the quotient rounded toward zero, so that
   * the remainder `a - q * b` is smaller than the divisor in magnitude and is
   * zero or has the sign of the dividend.
   */
  function Quot(a: int, b: int): (q: int)
    requires b != 0
    ensures Abs(a - q * b) < Abs(b)
    ensures a - q * b == 0 || (a - q * b < 0 <==> a < 0)
  {
    var m := Abs(a) / Abs(b);
    QuotMagnitude(a, b);
    if (a < 0) == (b < 0) then m else -m
  }

  lemma QuotMagnitude(a: int, b: int)
    requires b != 0
    ensures var m := Abs(a) / Abs(b);
            var q := if (a < 0) == (b < 0) then m else -m;
            a - q * b == (if a < 0 then -(Abs(a) % Abs(b)) else Abs(a) % Abs(b))
  {
    var n: int, d: int := Abs(a), Abs(b);
    var m: int, r: int := n / d, n % d;
    var p := m * d;
    assert n == p + r;
    var q := if (a < 0) == (b < 0) then m else -m;
    NegMul(m, d);
    if b < 0 {
      assert b == -d;
      NegMul(q, d);
      assert q * b == -(q * d);
    } else {
      assert b == d;
    }
    assert q * b == (if a < 0 then -p else p);
  }

  lemma NegMul(x: int, y: int)
    ensures x * (-y) == -(x * y) && (-x) * y == -(x * y)
  {
  }

  /** The contract of Quot determines the quotient: no other integer satisfies it. */
  lemma {:induction false} QuotUnique(a: int, b: int, q: int)
    requires b != 0
    requires Abs(a - q * b) < Abs(b)
    requires a - q * b == 0 || (a - q * b < 0 <==> a < 0)
    ensures q == Quot(a, b)
  {
    var q0 := Quot(a, b);
    var d := q0 - q;
    assert (a - q * b) - (a - q0 * b) == d * b;
    if d != 0 {
      // both remainders lie on the same side of zero and below |b|,
      // so they differ by less than |b|, while d * b is at least |b| away
      AbsProductAtLeast(d, b);
    }
  }

  lemma AbsProductAtLeast(k: int, b: int)
    requires k != 0
    ensures Abs(k * b) >= Abs(b)
  {
    if k > 0 {
      if b >= 0 { assert k * b >= 1 * b; } else { assert k * b <= 1 * b; }
    } else {
      if b >= 0 { assert k * b <= (-1) * b; } else { assert k * b >= (-1) * b; }
    }
  }
}
