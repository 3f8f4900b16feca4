/** Facts about integer floor division that the position formula of
    `np.linspace` needs. All operands are non-negative, so Dafny's
    Euclidean `/` coincides with the truncation `dtype=int` performs. */
module Arith {

  lemma MulMonotone(a: int, c: int, b: int)
    requires a <= c && b >= 0
    ensures a * b <= c * b
  {
    assert c * b - a * b == (c - a) * b;
  }

  lemma MulSucc(a: int, b: int)
    ensures (a + 1) * b == a * b + b
  {
  }

  lemma DivIsUnique(x: int, b: int, q: int)
    requires b > 0 && q * b <= x < q * b + b
    ensures x / b == q
  {
    var q' := x / b;
    assert q' * b <= x < q' * b + b;
    if q' < q {
      MulMonotone(q' + 1, q, b);
      MulSucc(q', b);
      assert false;
    } else if q' > q {
      MulMonotone(q + 1, q', b);
      MulSucc(q, b);
      assert false;
    }
  }

  lemma DivMonotone(x: int, y: int, b: int)
    requires 0 <= x <= y && b > 0
    ensures x / b <= y / b
  {
    var qx, qy := x / b, y / b;
    assert qx * b <= x;
    assert y < qy * b + b;
    if qy < qx {
      MulMonotone(qy + 1, qx, b);
      MulSucc(qy, b);
      assert false;
    }
  }

  lemma MulDivCancel(a: int, b: int)
    requires b > 0
    ensures (a * b) / b == a
  {
    MulSucc(a, b);
    DivIsUnique(a * b, b, a);
  }

  /** When the numerator grows by at least the divisor, the quotient grows
      by at least one. */
  lemma DivStepsByOne(x: int, a: int, b: int)
    requires 0 <= x && a >= b > 0
    ensures (x + a) / b >= x / b + 1
  {
    var q := x / b;
    assert q * b <= x;
    MulSucc(q, b);
    assert 0 <= q;
    MulMonotone(0, q, b);
    DivMonotone(q * b + b, x + a, b);
    MulDivCancel(q + 1, b);
  }

  /** Floor division by a positive divisor is negative exactly when the
      dividend is. */
  lemma DivNegativeIff(x: int, b: int)
    requires b > 0
    ensures x / b < 0 <==> x < 0
  {
    var q := x / b;
    assert q * b <= x < q * b + b;
    if q < 0 {
      MulMonotone(q, -1, b);
    } else {
      MulMonotone(0, q, b);
    }
  }

  /** A non-negative dividend gives a quotient of at least one exactly
      when it reaches the divisor. */
  lemma DivAtLeastOneIff(x: int, b: int)
    requires b > 0 && x >= 0
    ensures x / b >= 0
    ensures x / b >= 1 <==> x >= b
  {
    DivNegativeIff(x, b);
    if x >= b {
      DivMonotone(b, x, b);
      MulDivCancel(1, b);
    } else {
      DivIsUnique(x, b, 0);
    }
  }

  /** `k` shares of `x // k` make up `x` when `k` divides `x`, and nothing
      when `x < k`. */
  lemma WholeShares(x: int, k: int)
    requires k >= 1 && x >= 0
    ensures x % k == 0 ==> k * (x / k) == x
    ensures x < k ==> k * (x / k) == 0
  {
    if x < k {
      DivAtLeastOneIff(x, k);
    }
  }
}
