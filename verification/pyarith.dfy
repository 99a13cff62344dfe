/** Python integer division as the analysis code uses it. Dafny's `/` is
    Euclidean, so floor division and the `-(-a // b)` ceiling idiom are
    written out for both signs of the divisor. */
module PyArith {

  /** Python's `a // b`: the quotient rounded towards minus infinity. */
  function FloorDiv(a: int, b: int): (q: int)
    requires b != 0
    ensures b > 0 ==> q * b <= a < q * b + b
    ensures b < 0 ==> q * b + b < a <= q * b
  {
    if b > 0 then a / b else (-a) / (-b)
  }

  /** Python's `-(-a // b)`, the ceiling of a / b. */
  function CeilDiv(a: int, b: int): (q: int)
    requires b != 0
    ensures b > 0 ==> (q - 1) * b < a <= q * b
    ensures b < 0 ==> q * b <= a < q * b - b
  {
    -FloorDiv(-a, b)
  }

  /** The smaller of two integers; Python's slice clipping at the end. */
  function Min(a: int, b: int): int
  {
    if a <= b then a else b
  }

  lemma MulMonotone(x: int, y: int, b: int)
    requires x <= y && 0 <= b
    ensures x * b <= y * b
  {
    assert (y - x) * b >= 0;
  }

  /** The ceiling is the least multiplier that reaches `a`. */
  lemma CeilDivLeast(a: int, b: int, n: int)
    requires b > 0 && a <= n * b
    ensures CeilDiv(a, b) <= n
  {
    var q := CeilDiv(a, b);
    if n < q {
      MulMonotone(n, q - 1, b);
    }
  }

  /** Any multiplier meeting the ceiling's bounds is the ceiling. */
  lemma CeilDivUnique(a: int, b: int, q: int)
    requires b > 0 && (q - 1) * b < a <= q * b
    ensures CeilDiv(a, b) == q
  {
    var c := CeilDiv(a, b);
    CeilDivLeast(a, b, q);
    if c < q {
      MulMonotone(c, q - 1, b);
    }
  }

  /** Any multiplier meeting the floor's bounds is the floor. */
  lemma FloorDivUnique(a: int, b: int, q: int)
    requires b > 0 && q * b <= a < q * b + b
    ensures FloorDiv(a, b) == q
  {
    var f := FloorDiv(a, b);
    if f < q {
      MulMonotone(f + 1, q, b);
    } else if q < f {
      MulMonotone(q + 1, f, b);
    }
  }

  /** `k * b <= a` exactly when `k <= a // b`. */
  lemma FloorDivBound(a: int, b: int, k: int)
    requires b > 0
    ensures k * b <= a <==> k <= FloorDiv(a, b)
  {
    var f := FloorDiv(a, b);
    if k <= f {
      MulMonotone(k, f, b);
    } else {
      MulMonotone(f + 1, k, b);
    }
  }

  /** The rounded-up quotient of a non-negative `a` falls below -1 exactly
      for a negative divisor at most half of `a` in size. */
  lemma CeilDivBelowMinusOne(a: nat, b: int)
    requires b != 0
    ensures CeilDiv(a, b) < -1 <==> b < 0 && a >= -2 * b
  {
    var q := CeilDiv(a, b);
    if b > 0 && q < -1 {
      MulMonotone(q, -1, b);
    }
    if b < 0 {
      var d := -b;
      var m := -q;
      assert m * d <= a < m * d + d;
      if m >= 2 {
        MulMonotone(2, m, d);
      } else if a >= 2 * d {
        MulMonotone(m, 1, d);
      }
    }
  }

  /** A negative divisor larger in size than `a` gives 0; one at most `a`
      in size but more than half of it gives -1. */
  lemma CeilDivSmallNegative(a: nat, b: int)
    requires b < 0 && a < -2 * b
    ensures a < -b ==> CeilDiv(a, b) == 0
    ensures -b <= a ==> CeilDiv(a, b) == -1
  {
    var d := -b;
    var m := -CeilDiv(a, b);
    assert m * d <= a < m * d + d;
    if m >= 2 {
      MulMonotone(2, m, d);
    } else if m <= -1 {
      MulMonotone(m, -1, d);
    } else if m == 1 {
      assert d <= a;
    }
  }
}
