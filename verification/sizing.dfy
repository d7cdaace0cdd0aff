/** Order sizing arithmetic shared by the strategies: Python's `int()` on a
    float and whole 100-share lots. Prices are `real`; floating point rounding
    is not modelled. */
module Sizing {

  /** Shares per lot on the exchanges the monthly strategies trade. */
  const LotShares: int := 100

  /** Python's `int(x)` for a float `x`: truncation toward zero. */
  function Trunc(x: real): (n: int)
    ensures 0.0 <= x ==> 0 <= n && n as real <= x < n as real + 1.0
    ensures x < 0.0 ==> n <= 0 && n as real - 1.0 < x <= n as real
  {
    if x >= 0.0 then x.Floor else -((-x).Floor)
  }

  /** `int(budget / price)`: the number of whole shares `budget` buys at `price`.
      A positive result never costs more than the budget, and a non-negative
      budget leaves less than one more share unbought. */
  function Shares(budget: real, price: real): (n: int)
    requires price > 0.0
    ensures n > 0 ==> n as real * price <= budget
    ensures 0.0 <= budget ==> 0 <= n && budget < (n + 1) as real * price
    ensures budget < 0.0 ==> n <= 0
  {
    TruncQuotient(budget, price);
    Trunc(budget / price)
  }

  /** `int(budget / price / 100) * 100`: the largest whole number of lots that
      `budget` buys at `price`. */
  function Lots(budget: real, price: real): (n: int)
    requires price > 0.0
    ensures n % LotShares == 0
    ensures n > 0 ==> n as real * price <= budget
    ensures 0.0 <= budget ==> 0 <= n && budget < (n + LotShares) as real * price
    ensures budget < 0.0 ==> n <= 0
  {
    var lotPrice := price * LotShares as real;
    assert budget / price / LotShares as real == budget / lotPrice;
    TruncQuotient(budget, lotPrice);
    var k := Trunc(budget / lotPrice);
    assert (k * LotShares) as real * price == k as real * lotPrice;
    assert ((k + 1) * LotShares) as real * price == (k + 1) as real * lotPrice;
    k * LotShares
  }

  /** How many whole units of size `unit` fit into `budget` when the quotient
      is truncated toward zero. */
  lemma TruncQuotient(budget: real, unit: real)
    requires unit > 0.0
    ensures Trunc(budget / unit) > 0 ==> Trunc(budget / unit) as real * unit <= budget
    ensures 0.0 <= budget ==> budget < (Trunc(budget / unit) + 1) as real * unit
    ensures budget < 0.0 ==> Trunc(budget / unit) <= 0
  {
    var q := budget / unit;
    var k := Trunc(q);
    assert q * unit == budget;
    if 0.0 <= q {
      MulMonotone(k as real, q, unit);
      assert q < k as real + 1.0 == (k + 1) as real;
      MulMonotone(q, (k + 1) as real, unit);
      assert budget == q * unit < (k + 1) as real * unit;
      assert 0.0 <= budget ==> budget < (Trunc(budget / unit) + 1) as real * unit;
    } else {
      MulMonotone(q, 0.0, unit);
      assert budget < 0.0;
    }
  }

  /** Multiplying by a positive factor keeps the order of two reals. */
  lemma MulMonotone(a: real, b: real, f: real)
    requires a <= b && f > 0.0
    ensures a * f <= b * f
    ensures a < b ==> a * f < b * f
  {
  }
}
