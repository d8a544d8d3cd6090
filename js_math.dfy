/** The JavaScript number operations gui/app.js relies on, over exact
    non-negative integers: Math.round of a quotient (round half up). */
module JsMath {

  /** Math.round(a / b) for a >= 0, b > 0: floor(a / b + 1/2). */
  function RoundDiv(a: nat, b: nat): nat
    requires b > 0
  {
    (2 * a + b) / (2 * b)
  }

  function Dist(x: int, y: int): nat
  {
    if x >= y then x - y else y - x
  }

  /** b * RoundDiv(a, b) lies within half of b of a, ties going up. */
  lemma {:induction false} RoundDivHalfway(a: nat, b: nat)
    requires b > 0
    ensures 2 * a - b < 2 * b * RoundDiv(a, b) <= 2 * a + b
  {
    var q := RoundDiv(a, b);
    var r := (2 * a + b) % (2 * b);
    assert (2 * b) * q + r == 2 * a + b;
    assert 0 <= r < 2 * b;
  }

  /** Distinct multiples of b are at least b apart. */
  lemma {:induction false} MultiplesApart(b: nat, x: int, y: int)
    requires b > 0 && x < y
    ensures b * x + b <= b * y
    decreases y - x
  {
    if y > x + 1 {
      MultiplesApart(b, x, y - 1);
      assert b * y == b * (y - 1) + b;
    } else {
      assert b * y == b * x + b;
    }
  }

  /** A point within half of b of m is no farther from m than from a point
      at least b away from m. */
  lemma NearerWithinHalf(a: int, b: int, m: int, n: int)
    requires 2 * a - b < 2 * m <= 2 * a + b
    requires n == m || n + b <= m || m + b <= n
    ensures Dist(a, m) <= Dist(a, n)
  {
  }

  /** No multiple of b is closer to a than b * RoundDiv(a, b). */
  lemma {:induction false} RoundDivNearest(a: nat, b: nat, k: int)
    requires b > 0
    ensures Dist(a, b * RoundDiv(a, b)) <= Dist(a, b * k)
  {
    var q := RoundDiv(a, b);
    var m, n := b * q, b * k;
    RoundDivHalfway(a, b);
    assert 2 * b * q == 2 * m;
    if k > q {
      MultiplesApart(b, q, k);
    } else if k < q {
      MultiplesApart(b, k, q);
    }
    NearerWithinHalf(a, b, m, n);
  }

  /** Rounding a quotient gives its truncation or one more. */
  lemma {:induction false} RoundDivFloor(a: nat, b: nat)
    requires b > 0
    ensures a / b <= RoundDiv(a, b) <= a / b + 1
  {
    var q, f := RoundDiv(a, b), a / b;
    RoundDivHalfway(a, b);
    assert 2 * b * q == 2 * (b * q);
    assert b * f <= a < b * f + b;
    if q > f + 1 {
      assert b * (f + 1) == b * f + b;
      MultiplesApart(b, f + 1, q);
    } else if q < f {
      MultiplesApart(b, q, f);
    }
  }

  /** A multiple of b rounds to itself. */
  lemma {:induction false} RoundDivExact(q: nat, b: nat)
    requires b > 0
    ensures RoundDiv(b * q, b) == q
  {
    RoundDivHalfway(b * q, b);
    var r := RoundDiv(b * q, b);
    if r > q {
      MultiplesApart(2 * b, q, r);
    } else if r < q {
      MultiplesApart(2 * b, r, q);
    }
  }

  /** Rounding a larger quotient never gives a smaller result. */
  lemma {:induction false} RoundDivMonotone(a: nat, c: nat, b: nat)
    requires b > 0 && a <= c
    ensures RoundDiv(a, b) <= RoundDiv(c, b)
  {
    var qa, qc := RoundDiv(a, b), RoundDiv(c, b);
    RoundDivHalfway(a, b);
    RoundDivHalfway(c, b);
    if qa > qc {
      MultiplesApart(2 * b, qc, qa);
    }
  }
}
