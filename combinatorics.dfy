/** The combinatorics kernel: exact binomial coefficients and the binomial
    point mass C(n,k) * p^k * (1-p)^(n-k). */
module Combinatorics {
  import opened Wrappers

  /** Number of ways to choose k of n items, by Pascal's rule. Zero outside
      0 <= k <= n (and so for every k when n < 0). */
  function Choose(n: int, k: int): (c: nat)
    decreases n
  {
    if k < 0 || k > n then 0
    else if k == 0 || k == n then 1
    else Choose(n - 1, k - 1) + Choose(n - 1, k)
  }

  /** Pascal's rule holds on the whole row, boundaries included. */
  lemma Pascal(n: int, k: int)
    requires n >= 1
    ensures Choose(n, k) == Choose(n - 1, k - 1) + Choose(n - 1, k)
  {
  }

  /** The multiplicative step of the loop: (n - i) * C(n, i) == (i + 1) * C(n, i + 1). */
  lemma {:induction false} MultiplicativeStep(n: int, i: int)
    requires n >= 0 && i >= 0
    ensures (n - i) * Choose(n, i) == (i + 1) * Choose(n, i + 1)
    decreases n
  {
    if n == 0 {
      assert Choose(0, i + 1) == 0;
      assert i == 0 || Choose(0, i) == 0;
    } else {
      Pascal(n, i);
      Pascal(n, i + 1);
      MultiplicativeStep(n - 1, i);
      if i > 0 {
        MultiplicativeStep(n - 1, i - 1);
      }
      StepAlgebra(n, i, Choose(n - 1, i - 1), Choose(n - 1, i), Choose(n - 1, i + 1));
    }
  }

  /** The arithmetic of the inductive step of MultiplicativeStep, with
      a, b, c standing for C(n-1, i-1), C(n-1, i), C(n-1, i+1). */
  lemma StepAlgebra(n: int, i: int, a: int, b: int, c: int)
    requires i >= 0
    requires (i + 1) * c == (n - 1 - i) * b
    requires i == 0 ==> a == 0
    requires i > 0 ==> (n - i) * a == i * b
    ensures (n - i) * (a + b) == (i + 1) * (b + c)
  {
    Distribute(i + 1, b, c);
    Distribute(b, i + 1, n - 1 - i);
    Distribute(n - i, a, b);
    Distribute(b, i, n - i);
  }

  /** Each division in the loop is exact: (i + 1) divides C(n, i) * (n - i),
      and the quotient is the next coefficient of the row. */
  lemma StepIsExact(n: int, i: int)
    requires n >= 0 && i >= 0
    ensures (Choose(n, i) * (n - i)) % (i + 1) == 0
    ensures (Choose(n, i) * (n - i)) / (i + 1) == Choose(n, i + 1)
  {
    MultiplicativeStep(n, i);
    var x, d := Choose(n, i + 1), i + 1;
    assert Choose(n, i) * (n - i) == d * x;
    DivideProduct(d, x);
  }

  lemma Distribute(x: int, y: int, z: int)
    ensures x * (y + z) == x * y + x * z
  {
  }

  lemma DivideProduct(d: int, x: int)
    requires d > 0
    ensures (d * x) % d == 0 && (d * x) / d == x
  {
    var q, r := (d * x) / d, (d * x) % d;
    assert d * x == d * q + r && 0 <= r < d;
    var t := x - q;
    Distribute(d, q, t);
    assert d * t == r;
    MultiplySign(d, t);
  }

  lemma MultiplySign(d: int, t: int)
    requires d > 0
    ensures t >= 1 ==> d * t >= d
    ensures t <= -1 ==> d * t <= -d
  {
  }

  /** Choosing k is choosing the n - k left out. */
  lemma {:induction false} Symmetry(n: int, k: int)
    ensures Choose(n, k) == Choose(n, n - k)
    decreases n
  {
    if n >= 1 {
      Pascal(n, k);
      Symmetry(n - 1, k - 1);
      Symmetry(n - 1, k);
      Pascal(n, n - k);
    }
  }

  /** The binomial coefficient as the source computes it: the out-of-range
      and edge cases first, then k is replaced by min(k, n - k) and the
      coefficient is built by multiplying by (n - i) and dividing by (i + 1),
      which keeps the running product an exact integer. */
  method BinomialCoefficient(n: int, k: int) returns (c: int)
    ensures c == Choose(n, k)
    ensures k < 0 || k > n ==> c == 0
    ensures 0 <= k <= n ==> c >= 1
    ensures n >= 0 && (k == 0 || k == n) ==> c == 1
    ensures c == Choose(n, n - k)
  {
    Symmetry(n, k);
    if k < 0 || k > n {
      return 0;
    }
    if k == 0 || k == n {
      return 1;
    }
    var m := if k < n - k then k else n - k;
    assert Choose(n, m) == Choose(n, k);
    c := 1;
    var i := 0;
    while i < m
      invariant 0 <= i <= m
      invariant c == Choose(n, i)
    {
      StepIsExact(n, i);
      c := c * (n - i) / (i + 1);
      i := i + 1;
    }
    RowIsPositive(n, k);
  }

  /** Every coefficient inside the row is at least one. */
  lemma {:induction false} RowIsPositive(n: int, k: int)
    requires 0 <= k <= n
    ensures Choose(n, k) >= 1
    decreases n
  {
    if 0 < k < n {
      RowIsPositive(n - 1, k);
    }
  }

  /** x^e for a natural exponent; 0^0 == 1, as Python's float power. */
  function Pow(x: real, e: nat): (r: real)
    ensures x >= 0.0 ==> r >= 0.0
    ensures x != 0.0 ==> r != 0.0
  {
    if e == 0 then 1.0 else x * Pow(x, e - 1)
  }

  lemma ProductIsNonnegative(x: real, y: real)
    requires x >= 0.0 && y >= 0.0
    ensures x * y >= 0.0
  {
  }

  /** The binomial term C(n, k) * p^k * q^(n-k) for 0 <= k <= n. */
  function Mass(n: nat, p: real, q: real, k: nat): (m: real)
    requires k <= n
  {
    Choose(n, k) as real * Pow(p, k) * Pow(q, n - k)
  }

  /** With p and q non-negative no binomial term is negative. */
  lemma MassIsNonnegative(n: nat, p: real, q: real, k: nat)
    requires k <= n && p >= 0.0 && q >= 0.0
    ensures Mass(n, p, q, k) >= 0.0
  {
    var c, a, b := Choose(n, k) as real, Pow(p, k), Pow(q, n - k);
    ProductIsNonnegative(c, a);
    ProductIsNonnegative(c * a, b);
  }

  /** x^e for an integer exponent, defined unless x == 0 and e < 0 (where
      Python raises ZeroDivisionError). */
  function IntPow(x: real, e: int): (r: Option<real>)
    ensures r.None? <==> x == 0.0 && e < 0
    ensures e >= 0 ==> r == Some(Pow(x, e))
    ensures x >= 0.0 && r.Some? ==> r.value >= 0.0
  {
    if e >= 0 then Some(Pow(x, e))
    else if x == 0.0 then None
    else Some(1.0 / Pow(x, -e))
  }

  /** Probability of exactly k successes in n Bernoulli(p) trials, as
      C(n, k) * p ** k * (1 - p) ** (n - k) evaluates: None where one of the
      two powers raises (zero to a negative power). */
  function PointMass(n: int, p: real, k: int): (r: Option<real>)
    ensures r.None? <==> (p == 0.0 && k < 0) || (p == 1.0 && n - k < 0)
    ensures 0 <= k <= n ==> r == Some(Mass(n, p, 1.0 - p, k))
  {
    var pk := IntPow(p, k);
    var qk := IntPow(1.0 - p, n - k);
    if pk.None? || qk.None? then None
    else
      var c, a, b := Choose(n, k) as real, pk.value, qk.value;
      assert 0 <= k <= n ==> a == Pow(p, k) && b == Pow(1.0 - p, n - k);
      assert 0 <= k <= n ==> c * a * b == Mass(n, p, 1.0 - p, k);
      Some(c * a * b)
  }

  /** Outside 0 <= k <= n the coefficient is zero, so the mass is zero
      whenever it is defined. */
  lemma PointMassOutOfRange(n: int, p: real, k: int)
    requires k < 0 || k > n
    requires PointMass(n, p, k).Some?
    ensures PointMass(n, p, k).value == 0.0
  {
    var a, b := IntPow(p, k).value, IntPow(1.0 - p, n - k).value;
    assert Choose(n, k) as real * a == 0.0;
  }

  /** For p a probability the mass is never negative. */
  lemma PointMassIsNonnegative(n: int, p: real, k: int)
    requires 0.0 <= p <= 1.0
    requires PointMass(n, p, k).Some?
    ensures PointMass(n, p, k).value >= 0.0
  {
    var c, a, b := Choose(n, k) as real, IntPow(p, k).value, IntPow(1.0 - p, n - k).value;
    ProductIsNonnegative(c, a);
    ProductIsNonnegative(c * a, b);
  }

  /** calculate_binomial_probability: the point mass, with the coefficient
      computed by the multiplicative loop. */
  method BinomialProbability(n: int, p: real, k: int) returns (r: Option<real>)
    ensures r == PointMass(n, p, k)
  {
    var c := BinomialCoefficient(n, k);
    var pk := IntPow(p, k);
    var qk := IntPow(1.0 - p, n - k);
    if pk.None? || qk.None? {
      assert PointMass(n, p, k).None?;
      r := None;
    } else {
      var x, a, b := c as real, pk.value, qk.value;
      assert x == Choose(n, k) as real;
      assert PointMass(n, p, k).Some?;
      assert PointMass(n, p, k).value == Choose(n, k) as real * a * b;
      assert x * a * b == PointMass(n, p, k).value;
      r := Some(x * a * b);
    }
  }
}
