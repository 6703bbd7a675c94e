/** Facts about multiplication and division that the solver is given rather than left to find. */
module Arithmetic {

  lemma MulMonotone(d: int, x: int, y: int)
    requires 0 <= d && x <= y
    ensures d * x <= d * y
  {
    assert d * y - d * x == d * (y - x);
  }

  lemma MulAddOne(d: int, x: int)
    ensures d * (x + 1) == d * x + d
  {
  }

  lemma DivUnique(a: int, d: int, q: int, r: int)
    requires 0 < d && a == d * q + r && 0 <= r < d
    ensures a / d == q && a % d == r
  {
    var x := a / d;
    assert a == d * x + a % d;
    if x < q {
      MulMonotone(d, x + 1, q);
      MulAddOne(d, x);
    } else if q < x {
      MulMonotone(d, q + 1, x);
      MulAddOne(d, q);
    }
  }

  lemma DivMonotone(a: int, b: int, d: int)
    requires a <= b && 0 < d
    ensures a / d <= b / d
  {
    var x, y := a / d, b / d;
    assert a == d * x + a % d && b == d * y + b % d;
    if y < x {
      MulMonotone(d, y + 1, x);
      MulAddOne(d, y);
    }
  }

  lemma DivMinusOne(a: int, d: int)
    requires 0 < d
    ensures (a - d) / d == a / d - 1
  {
    var q := a / d;
    assert a == d * q + a % d;
    MulAddOne(d, q - 1);
    DivUnique(a - d, d, q - 1, a % d);
  }
}
