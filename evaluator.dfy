/** The bid probability evaluator: the chance that at least `bidQuantity`
    dice show `bidFace`, given how many known dice already match and how
    many dice are still unknown. */
module BidEvaluator {
  import opened Wrappers
  import opened Combinatorics
  import opened Dice

  /** Per-die chance that an unknown die supports the bid. */
  function SuccessProbability(bidFace: int): (p: real)
  {
    if bidFace == 1 then 1.0 / 6.0 else 1.0 / 3.0
  }

  /** On a fair die the success chance is the share of the six faces that
      support the bid under the wildcard rule. */
  lemma SuccessProbabilityIsShareOfFaces(bidFace: int)
    requires IsFace(bidFace)
    ensures SuccessProbability(bidFace) == |MatchingFaces(bidFace)| as real / 6.0
  {
    MatchingFacesOf(bidFace);
  }

  /** Upper tail of the binomial expansion of (p + q)^n: the sum of the
      terms for lo <= k <= n. With q = 1 - p it is P(X >= lo) for
      X ~ Binomial(n, p). */
  function TailFrom(n: nat, p: real, q: real, lo: nat): (t: real)
    decreases n + 1 - lo
  {
    if lo > n then 0.0 else Mass(n, p, q, lo) + TailFrom(n, p, q, lo + 1)
  }

  /** The number of still-unknown dice that must match: max(0, Q - known). */
  function Required(knownSuccesses: int, bidQuantity: int): (r: nat)
  {
    if bidQuantity - knownSuccesses > 0 then bidQuantity - knownSuccesses else 0
  }

  /** calculate_cumulative_probability, as a function of its inputs. */
  function CumulativeProbability(knownSuccesses: int, unknownDice: int, bidFace: int, bidQuantity: int): (prob: real)
  {
    var required := Required(knownSuccesses, bidQuantity);
    if unknownDice <= 0 then
      (if required <= 0 then 1.0 else 0.0)
    else if required == 0 then 1.0
    else if required > unknownDice then 0.0
    else
      var p := SuccessProbability(bidFace);
      TailFrom(unknownDice, p, 1.0 - p, required)
  }

  // ---------------------------------------------------------------------
  // The binomial theorem for the tail sums.

  /** c * x * y as one term, so that the solver rewrites it as a whole. */
  function Product(c: real, x: real, y: real): real
  {
    c * x * y
  }

  /** The weighted sum p * x + q * y, kept as one term. */
  function Blend(p: real, x: real, q: real, y: real): real
  {
    p * x + q * y
  }

  /** Rewriting the three factors of a binomial term by equal values. */
  lemma MassCongruence(n: nat, p: real, q: real, k: nat, c: real, x: real, y: real)
    requires k <= n
    requires Choose(n, k) as real == c && Pow(p, k) == x && Pow(q, n - k) == y
    ensures Mass(n, p, q, k) == Product(c, x, y)
  {
  }

  /** Pascal's rule applied to one inner term of row m + 1. */
  lemma MassSplit(m: nat, p: real, q: real, j: nat)
    requires j < m
    ensures Mass(m + 1, p, q, j + 1) == Blend(p, Mass(m, p, q, j), q, Mass(m, p, q, j + 1))
  {
    var a, b := Choose(m, j) as real, Choose(m, j + 1) as real;
    var x, y := Pow(p, j), Pow(q, m - j - 1);
    Pascal(m + 1, j + 1);
    assert Choose(m + 1, j + 1) as real == a + b;
    MassCongruence(m + 1, p, q, j + 1, a + b, p * x, q * y);
    MassCongruence(m, p, q, j, a, x, q * y);
    MassCongruence(m, p, q, j + 1, b, p * x, y);
    MassSplitStep(m, p, q, j, a, b, x, y);
  }

  /** MassSplit once the three terms are written as products. */
  lemma MassSplitStep(m: nat, p: real, q: real, j: nat, a: real, b: real, x: real, y: real)
    requires j < m
    requires Mass(m + 1, p, q, j + 1) == Product(a + b, p * x, q * y)
    requires Mass(m, p, q, j) == Product(a, x, q * y)
    requires Mass(m, p, q, j + 1) == Product(b, p * x, y)
    ensures Mass(m + 1, p, q, j + 1) == Blend(p, Mass(m, p, q, j), q, Mass(m, p, q, j + 1))
  {
    SplitAlgebra(Mass(m + 1, p, q, j + 1), Mass(m, p, q, j), Mass(m, p, q, j + 1), a, b, p, q, x, y);
  }

  /** The ring identity behind MassSplit. */
  lemma SplitAlgebra(v: real, v1: real, v2: real, a: real, b: real, p: real, q: real, x: real, y: real)
    requires v == Product(a + b, p * x, q * y)
    requires v1 == Product(a, x, q * y) && v2 == Product(b, p * x, y)
    ensures v == Blend(p, v1, q, v2)
  {
  }

  /** The last term of row m + 1 is p times the last term of row m. */
  lemma LastMassSplit(m: nat, p: real, q: real)
    ensures Mass(m + 1, p, q, m + 1) == p * Mass(m, p, q, m)
  {
    var x := Pow(p, m);
    MassCongruence(m + 1, p, q, m + 1, 1.0, p * x, 1.0);
    MassCongruence(m, p, q, m, 1.0, x, 1.0);
  }

  /** The first term of row m + 1 is q times the first term of row m. */
  lemma FirstMassSplit(m: nat, p: real, q: real)
    ensures Mass(m + 1, p, q, 0) == q * Mass(m, p, q, 0)
  {
    var y := Pow(q, m);
    MassCongruence(m + 1, p, q, 0, 1.0, 1.0, q * y);
    MassCongruence(m, p, q, 0, 1.0, 1.0, y);
  }

  /** Splitting the tail of row m + 1 into the tails of row m. */
  lemma {:induction false} TailSplit(m: nat, p: real, q: real, j: nat)
    requires j <= m + 1
    ensures TailFrom(m + 1, p, q, j + 1) == Blend(p, TailFrom(m, p, q, j), q, TailFrom(m, p, q, j + 1))
    decreases m + 1 - j
  {
    if j < m {
      TailSplit(m, p, q, j + 1);
      TailSplitStep(m, p, q, j);
    } else if j == m {
      LastMassSplit(m, p, q);
      assert TailFrom(m, p, q, m + 1) == 0.0;
      assert TailFrom(m, p, q, m) == Mass(m, p, q, m);
    }
  }

  /** TailSplit at j from TailSplit at j + 1. */
  lemma TailSplitStep(m: nat, p: real, q: real, j: nat)
    requires j < m
    requires TailFrom(m + 1, p, q, j + 1 + 1) == Blend(p, TailFrom(m, p, q, j + 1), q, TailFrom(m, p, q, j + 1 + 1))
    ensures TailFrom(m + 1, p, q, j + 1) == Blend(p, TailFrom(m, p, q, j), q, TailFrom(m, p, q, j + 1))
  {
    var t, mass, rest := TailFrom(m + 1, p, q, j + 1), Mass(m + 1, p, q, j + 1), TailFrom(m + 1, p, q, j + 1 + 1);
    var a, b := Mass(m, p, q, j), Mass(m, p, q, j + 1);
    var t0, t1, t2 := TailFrom(m, p, q, j), TailFrom(m, p, q, j + 1), TailFrom(m, p, q, j + 1 + 1);
    assert t == mass + rest by { TailUnfold(m + 1, p, q, j + 1); }
    assert mass == Blend(p, a, q, b) by { MassSplit(m, p, q, j); }
    assert t1 == b + t2 by { TailUnfold(m, p, q, j + 1); }
    assert t0 == a + t1 by { TailUnfold(m, p, q, j); }
    TailAlgebra(t, mass, rest, p, q, a, b, t0, t1, t2);
  }

  /** One step of the tail sum. */
  lemma TailUnfold(n: nat, p: real, q: real, lo: nat)
    requires lo <= n
    ensures TailFrom(n, p, q, lo) == Mass(n, p, q, lo) + TailFrom(n, p, q, lo + 1)
  {
  }

  /** The arithmetic of the inductive step of TailSplit. */
  lemma TailAlgebra(t: real, mass: real, rest: real, p: real, q: real,
                    m: real, m1: real, t00: real, t0: real, t1: real)
    requires t == mass + rest
    requires mass == Blend(p, m, q, m1)
    requires rest == Blend(p, t0, q, t1)
    requires t0 == m1 + t1
    requires t00 == m + t0
    ensures t == Blend(p, t00, q, t0)
  {
  }

  /** The binomial theorem: the terms of row n sum to (p + q)^n. */
  lemma {:induction false} BinomialTheorem(n: nat, p: real, q: real)
    ensures TailFrom(n, p, q, 0) == Pow(p + q, n)
  {
    if n == 0 {
      assert Mass(0, p, q, 0) == 1.0;
    } else {
      BinomialTheorem(n - 1, p, q);
      BinomialStep(n - 1, p, q);
    }
  }

  /** The inductive step of BinomialTheorem, from row m to row m + 1. */
  lemma BinomialStep(m: nat, p: real, q: real)
    requires TailFrom(m, p, q, 0) == Pow(p + q, m)
    ensures TailFrom(m + 1, p, q, 0) == Pow(p + q, m + 1)
  {
    var t, first, rest := TailFrom(m + 1, p, q, 0), Mass(m + 1, p, q, 0), TailFrom(m + 1, p, q, 0 + 1);
    var a, t0, t1 := Mass(m, p, q, 0), TailFrom(m, p, q, 0), TailFrom(m, p, q, 0 + 1);
    assert t == first + rest by { TailUnfold(m + 1, p, q, 0); }
    assert first == q * a by { FirstMassSplit(m, p, q); }
    assert rest == Blend(p, t0, q, t1) by { TailSplit(m, p, q, 0); }
    assert t0 == a + t1 by { TailUnfold(m, p, q, 0); }
    TheoremAlgebra(t, first, rest, p, q, a, t0, t1, Pow(p + q, m));
  }

  /** The arithmetic of the inductive step of BinomialTheorem. */
  lemma TheoremAlgebra(t: real, first: real, rest: real, p: real, q: real,
                       m: real, t0: real, t1: real, w: real)
    requires t == first + rest
    requires first == q * m
    requires rest == Blend(p, t0, q, t1)
    requires t0 == m + t1
    requires t0 == w
    ensures t == (p + q) * w
  {
  }

  /** One to any power is one. */
  lemma {:induction false} PowOfOne(n: nat)
    ensures Pow(1.0, n) == 1.0
  {
    if n > 0 {
      PowOfOne(n - 1);
    }
  }

  /** With q = 1 - p the terms of a row sum to one. */
  lemma TotalMassIsOne(n: nat, p: real)
    ensures TailFrom(n, p, 1.0 - p, 0) == 1.0
  {
    BinomialTheorem(n, p, 1.0 - p);
    assert p + (1.0 - p) == 1.0;
    PowOfOne(n);
  }

  /** For non-negative p and q no tail is negative. */
  lemma {:induction false} TailIsNonnegative(n: nat, p: real, q: real, lo: nat)
    requires p >= 0.0 && q >= 0.0
    ensures TailFrom(n, p, q, lo) >= 0.0
    decreases n + 1 - lo
  {
    if lo <= n {
      MassIsNonnegative(n, p, q, lo);
      TailIsNonnegative(n, p, q, lo + 1);
    }
  }

  /** Raising the lower bound of the tail never increases it. */
  lemma {:induction false} TailIsAntitone(n: nat, p: real, q: real, lo: nat, hi: nat)
    requires p >= 0.0 && q >= 0.0 && lo <= hi
    ensures TailFrom(n, p, q, hi) <= TailFrom(n, p, q, lo)
    decreases hi - lo
  {
    if lo < hi {
      TailIsAntitone(n, p, q, lo + 1, hi);
      if lo <= n {
        MassIsNonnegative(n, p, q, lo);
      }
    }
  }

  /** For p a probability every tail of Binomial(n, p) is a probability. */
  lemma TailIsProbability(n: nat, p: real, lo: nat)
    requires 0.0 <= p <= 1.0
    ensures 0.0 <= TailFrom(n, p, 1.0 - p, lo) <= 1.0
  {
    TailIsNonnegative(n, p, 1.0 - p, lo);
    TailIsAntitone(n, p, 1.0 - p, 0, lo);
    TotalMassIsOne(n, p);
  }

  // ---------------------------------------------------------------------
  // Properties of the evaluator.

  /** The result is a probability, for every input. */
  lemma CumulativeIsProbability(knownSuccesses: int, unknownDice: int, bidFace: int, bidQuantity: int)
    ensures 0.0 <= CumulativeProbability(knownSuccesses, unknownDice, bidFace, bidQuantity) <= 1.0
  {
    var required := Required(knownSuccesses, bidQuantity);
    if unknownDice > 0 && 0 < required <= unknownDice {
      TailIsProbability(unknownDice, SuccessProbability(bidFace), required);
    }
  }

  /** Needing more of the unknown dice to match never makes the bid likelier. */
  lemma RequiredIsAntitone(unknownDice: int, bidFace: int, known1: int, bid1: int, known2: int, bid2: int)
    requires Required(known1, bid1) <= Required(known2, bid2)
    ensures CumulativeProbability(known2, unknownDice, bidFace, bid2)
         <= CumulativeProbability(known1, unknownDice, bidFace, bid1)
  {
    var r1, r2 := Required(known1, bid1), Required(known2, bid2);
    CumulativeIsProbability(known1, unknownDice, bidFace, bid1);
    CumulativeIsProbability(known2, unknownDice, bidFace, bid2);
    if unknownDice > 0 && 0 < r1 <= r2 <= unknownDice {
      var p := SuccessProbability(bidFace);
      TailIsAntitone(unknownDice, p, 1.0 - p, r1, r2);
    }
  }

  /** A higher bid is never more likely to be true. */
  lemma BidQuantityIsAntitone(knownSuccesses: int, unknownDice: int, bidFace: int, bid1: int, bid2: int)
    requires bid1 <= bid2
    ensures CumulativeProbability(knownSuccesses, unknownDice, bidFace, bid2)
         <= CumulativeProbability(knownSuccesses, unknownDice, bidFace, bid1)
  {
    RequiredIsAntitone(unknownDice, bidFace, knownSuccesses, bid1, knownSuccesses, bid2);
  }

  /** More known matches never make the bid less likely. */
  lemma KnownSuccessesIsMonotone(known1: int, known2: int, unknownDice: int, bidFace: int, bidQuantity: int)
    requires known1 <= known2
    ensures CumulativeProbability(known1, unknownDice, bidFace, bidQuantity)
         <= CumulativeProbability(known2, unknownDice, bidFace, bidQuantity)
  {
    RequiredIsAntitone(unknownDice, bidFace, known2, bidQuantity, known1, bidQuantity);
  }

  // ---------------------------------------------------------------------
  // The evaluator as the source computes it.

  /** calculate_cumulative_probability: the degenerate cases first, then the
      upper tail summed in ascending order of k. */
  method CalculateCumulativeProbability(knownSuccesses: int, unknownDice: int, bidFace: int, bidQuantity: int)
    returns (prob: real)
    ensures prob == CumulativeProbability(knownSuccesses, unknownDice, bidFace, bidQuantity)
    ensures 0.0 <= prob <= 1.0
    ensures unknownDice <= 0 ==> (prob == 1.0 <==> bidQuantity <= knownSuccesses)
    ensures unknownDice <= 0 ==> (prob == 0.0 <==> bidQuantity > knownSuccesses)
    ensures bidQuantity <= knownSuccesses ==> prob == 1.0
    ensures bidQuantity - knownSuccesses > 0 && bidQuantity - knownSuccesses > unknownDice ==> prob == 0.0
    ensures 0 < bidQuantity - knownSuccesses <= unknownDice ==>
              prob == TailFrom(unknownDice, SuccessProbability(bidFace), 1.0 - SuccessProbability(bidFace),
                             bidQuantity - knownSuccesses)
  {
    CumulativeIsProbability(knownSuccesses, unknownDice, bidFace, bidQuantity);
    var required := if bidQuantity - knownSuccesses > 0 then bidQuantity - knownSuccesses else 0;
    if unknownDice <= 0 {
      if required <= 0 {
        return 1.0;
      } else {
        return 0.0;
      }
    }
    var pSuccess := if bidFace == 1 then 1.0 / 6.0 else 1.0 / 3.0;
    if required == 0 {
      return 1.0;
    } else if required > unknownDice {
      return 0.0;
    }
    prob := 0.0;
    var k := required;
    while k < unknownDice + 1
      invariant required <= k <= unknownDice + 1
      invariant prob + TailFrom(unknownDice, pSuccess, 1.0 - pSuccess, k)
             == TailFrom(unknownDice, pSuccess, 1.0 - pSuccess, required)
    {
      var mass := BinomialProbability(unknownDice, pSuccess, k);
      prob := prob + mass.value;
      k := k + 1;
    }
  }
}
