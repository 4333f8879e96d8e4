/**
 * Exact powers of two and the ceiling of a base-2 logarithm, standing for
 * powf(2, b) and ceilf(log(x) / log(2)) without floating-point rounding.
 */
module QuantizationMath {

  /** 2^b for any integer b. */
  function Pow2(b: int): (r: real)
    ensures r > 0.0
    decreases if b >= 0 then b else -b
  {
    if b == 0 then 1.0 else if b > 0 then 2.0 * Pow2(b - 1) else Pow2(b + 1) / 2.0
  }

  lemma Pow2Step(b: int)
    ensures Pow2(b + 1) == 2.0 * Pow2(b)
  {
    if b < 0 {
      assert Pow2(b) == Pow2(b + 1) / 2.0;
    }
  }

  lemma {:induction false} Pow2Monotone(a: int, b: int)
    requires a <= b
    ensures Pow2(a) <= Pow2(b)
    decreases b - a
  {
    if a < b {
      Pow2Monotone(a, b - 1);
      Pow2Step(b - 1);
    }
  }

  lemma {:induction false} Pow2Grows(n: nat)
    ensures n as real + 1.0 <= Pow2(n)
  {
    if n > 0 {
      Pow2Grows(n - 1);
    }
  }

  /** 2^-k is the reciprocal of 2^k. */
  lemma {:induction false} Pow2Reciprocal(k: nat)
    ensures Pow2(-(k as int)) * Pow2(k) == 1.0
  {
    if k > 0 {
      Pow2Reciprocal(k - 1);
      assert Pow2(-(k as int)) == Pow2(-(k as int) + 1) / 2.0;
      assert Pow2(k) == 2.0 * Pow2(k - 1);
    }
  }

  function Ceil(x: real): (c: int)
    ensures x <= c as real < x + 1.0
  {
    -((-x).Floor)
  }

  /** The least b from start with x <= 2^b. */
  function CeilSearch(x: real, b: nat): (r: nat)
    requires b == 0 || Pow2(b - 1) < x
    ensures b <= r && x <= Pow2(r) && (r == 0 || Pow2(r - 1) < x)
    decreases Ceil(x) - b
  {
    if x <= Pow2(b) then b
    else
      Pow2Grows(b);
      CeilSearch(x, b + 1)
  }

  /** The greatest k from start with 2^k <= y. */
  function FloorSearch(y: real, k: nat): (r: nat)
    requires Pow2(k) <= y
    ensures k <= r && Pow2(r) <= y < Pow2(r + 1)
    decreases Ceil(y) - k
  {
    if y < Pow2(k + 1) then k
    else
      Pow2Grows(k + 1);
      FloorSearch(y, k + 1)
  }

  /**
   * ceil(log2(x)): the least integer b with 2^b >= x, searched upwards from
   * 0 above 1, and at or below 1 as minus the greatest k with 2^k <= 1/x.
   */
  function CeilLog2(x: real): (b: int)
    requires x > 0.0
  {
    if x > 1.0 then CeilSearch(x, 0) else -(FloorSearch(1.0 / x, 0) as int)
  }

  /** CeilLog2(x) is the least b with x <= 2^b. */
  lemma CeilLog2Least(x: real)
    requires x > 0.0
    ensures x <= Pow2(CeilLog2(x)) && Pow2(CeilLog2(x) - 1) < x
  {
    if x <= 1.0 {
      var k := FloorSearch(1.0 / x, 0);
      assert CeilLog2(x) == -(k as int);
      Pow2Reciprocal(k);
      Pow2Reciprocal(k + 1);
      ReciprocalBounds(x, Pow2(k), Pow2(k + 1), Pow2(-(k as int)), Pow2(-(k as int) - 1));
    }
  }

  /** From p <= 1/x < p1 to 1/p1 < x <= 1/p, with n and n1 the reciprocals of p and p1. */
  lemma ReciprocalBounds(x: real, p: real, p1: real, n: real, n1: real)
    requires x > 0.0 && p > 0.0 && p1 > 0.0 && n * p == 1.0 && n1 * p1 == 1.0
    requires p <= 1.0 / x < p1
    ensures x <= n && n1 < x
  {
    PowReciprocal(x, p);
    assert n == 1.0 / p;
    PowReciprocalStrict(x, p1);
    assert n1 == 1.0 / p1;
  }

  lemma PowReciprocal(x: real, p: real)
    requires x > 0.0 && p > 0.0 && p <= 1.0 / x
    ensures x <= 1.0 / p
  {
    assert p * x <= (1.0 / x) * x == 1.0;
  }

  lemma PowReciprocalStrict(x: real, p: real)
    requires x > 0.0 && p > 0.0 && 1.0 / x < p
    ensures 1.0 / p < x
  {
    assert (1.0 / x) * x == 1.0;
    MulStrict(1.0 / x, p, x);
  }

  lemma MulStrict(a: real, b: real, x: real)
    requires a < b && x > 0.0
    ensures a * x < b * x
  {
  }

  lemma MulMonotone(a: real, b: real, x: real)
    requires a <= b && x > 0.0
    ensures a * x <= b * x
  {
  }

  /**
   * delta * 2^b, computed by doubling and halving delta so that it stays
   * linear in delta; ScaledPow2IsProduct relates it to the product.
   */
  function ScaledPow2(delta: real, b: int): real
    decreases if b >= 0 then b else -b
  {
    if b == 0 then delta else if b > 0 then 2.0 * ScaledPow2(delta, b - 1) else ScaledPow2(delta, b + 1) / 2.0
  }

  lemma {:induction false} ScaledPow2IsProduct(delta: real, b: int)
    ensures ScaledPow2(delta, b) == delta * Pow2(b)
    decreases if b >= 0 then b else -b
  {
    if b > 0 {
      ScaledPow2IsProduct(delta, b - 1);
      assert delta * (2.0 * Pow2(b - 1)) == 2.0 * (delta * Pow2(b - 1));
    } else if b < 0 {
      ScaledPow2IsProduct(delta, b + 1);
      assert delta * (Pow2(b + 1) / 2.0) == (delta * Pow2(b + 1)) / 2.0;
    }
  }

  lemma ScaledPow2Step(delta: real, b: int)
    ensures ScaledPow2(delta, b + 1) == 2.0 * ScaledPow2(delta, b)
  {
    if b < 0 {
      assert ScaledPow2(delta, b) == ScaledPow2(delta, b + 1) / 2.0;
    }
  }

  lemma {:induction false} ScaledPow2Monotone(delta: real, a: int, b: int)
    requires delta > 0.0 && a <= b
    ensures 0.0 < ScaledPow2(delta, a) <= ScaledPow2(delta, b)
    decreases b - a
  {
    ScaledPow2IsProduct(delta, a);
    MulStrict(0.0, Pow2(a), delta);
    assert 0.0 * delta == 0.0;
    if a < b {
      ScaledPow2Monotone(delta, a, b - 1);
      ScaledPow2Step(delta, b - 1);
    }
  }

  /** 2^b - 1 steps of delta, as the product grid_delta * (powf(2, b) - 1) states it. */
  lemma StepsAreProduct(delta: real, b: int)
    ensures ScaledPow2(delta, b) - delta == delta * (Pow2(b) - 1.0)
  {
    ScaledPow2IsProduct(delta, b);
  }

  /**
   * Scaling CeilLog2Least by delta: with b = CeilLog2(a / delta + c), the
   * amount a + c * delta is at most delta * 2^b and more than delta * 2^(b-1).
   */
  lemma ScaledCeilLog2(a: real, delta: real, c: real)
    requires delta > 0.0 && a / delta + c > 0.0
    ensures var b := CeilLog2(a / delta + c);
            a + c * delta <= ScaledPow2(delta, b) && ScaledPow2(delta, b - 1) < a + c * delta
  {
    var x := a / delta + c;
    var b := CeilLog2(x);
    CeilLog2Least(x);
    ScaledPow2IsProduct(delta, b);
    ScaledPow2IsProduct(delta, b - 1);
    ScaleBounds(a, delta, c, x, Pow2(b), Pow2(b - 1));
  }

  /** x = a / delta + c lies in (q, p] exactly when a + c * delta lies in (delta * q, delta * p]. */
  lemma ScaleBounds(a: real, delta: real, c: real, x: real, p: real, q: real)
    requires delta > 0.0 && x == a / delta + c && x <= p && q < x
    ensures a + c * delta <= delta * p && delta * q < a + c * delta
  {
    assert x * delta == a + c * delta;
    MulMonotone(x, p, delta);
    MulStrict(q, x, delta);
  }

  /** b is CeilLog2(x) exactly when it is the least b with x <= 2^b. */
  lemma CeilLog2Unique(x: real, b: int)
    requires x > 0.0 && x <= Pow2(b) && Pow2(b - 1) < x
    ensures CeilLog2(x) == b
  {
    var c := CeilLog2(x);
    CeilLog2Least(x);
    if c < b {
      Pow2Monotone(c, b - 1);
    } else if b < c {
      Pow2Monotone(b, c - 1);
    }
  }
}
