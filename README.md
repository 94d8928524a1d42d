# Perudo probability engine

The Perudo assistant answers one question for a player of Perudo, which is Liar's Dice with ones as wildcards: how likely is it that at least Q dice on the table show face F? The player's own dice can be seen; opponents' dice cannot, except for those the player has set as "suspected". A one counts as any face, except when the bid is itself on ones. So an unknown die supports the bid with probability 1/6 for a bid on ones and 1/3 otherwise.

This project models the engine of `Perudo-Assistant.py` and proves properties of it. The engine has four parts:

- **Combinatorics** (`combinatorics.dfy`). This is `binomial_coefficient`, a multiply-then-divide loop over `min(k, n - k)` steps. It is proved to compute `Choose(n, k)`, which is defined by Pascal's rule, and every division in it is proved exact. This part also has `calculate_binomial_probability`, the point mass `C(n,k) * p^k * (1-p)^(n-k)`. Python evaluates `p ** k` with an integer exponent, which raises ZeroDivisionError when zero is raised to a negative power; the model returns `None` in exactly those cases.
- **The evaluator** (`evaluator.dfy`). This is `calculate_cumulative_probability`. It first handles three degenerate cases, then sums the upper binomial tail in an ascending loop. The loop is proved to compute the tail `TailFrom`. The binomial theorem is proved for tails (`TailFrom(n, p, q, 0) == (p + q)^n`). From it follow:
  - every result is a probability;
  - a higher bid is never likelier;
  - more known matches never make the bid less likely.
- **Counting** (`counting.dfy`, with the wildcard rule in `dice.dfy`). These are the loops inside `calculate_probability`:
  - known matches among the own dice;
  - folding in the suspected dice, taking at most `min(len(suspected), count)` of each opponent's slots;
  - the pool size that `update_total_dice` computes.

  Each loop is proved to compute a recursive specification function.
- **The calculator** (`calculator.dfy`). This is `calculate_probability` without its widgets. It applies the `total_dice <= 0` guard and then produces the base estimate. It produces the suspected estimate only when some suspected dice lists exist.

Probabilities are exact rationals (`real`), so 1/6 and 1/3 are exact. The blank slot of a combobox is `None` in `Option<int>`.

Inconsistent counts raise no error, such as a negative number of unknown dice or more known than total dice. `calculate_cumulative_probability` takes its `unknown_dice <= 0` branch for any non-positive count, and the only guard in `calculate_probability` is `total_dice <= 0`. The model does the same. Instead, it proves that when the pool size is the one `update_total_dice` sets and no opponent count is negative, neither unknown count is negative (`Counting.UnknownDiceAreNonnegative`).

## Model

| member | source | states |
|---|---|---|
| Combinatorics.BinomialCoefficient | Perudo-Assistant.py:4-13 | The loop returns `Choose(n, k)`. The result is 0 when `k < 0` or `k > n`, 1 at the edges `k == 0` or `k == n`, at least 1 inside the row, and equal to `Choose(n, n - k)`. |
| Combinatorics.StepIsExact | Perudo-Assistant.py:11-12 | `(i + 1)` divides `C(n, i) * (n - i)` exactly, and the quotient is `C(n, i + 1)`. So the integer division never truncates. |
| Combinatorics.MultiplicativeStep | Perudo-Assistant.py:12 | `(n - i) * C(n, i) == (i + 1) * C(n, i + 1)`, proved by induction from Pascal's rule. |
| Combinatorics.Symmetry | Perudo-Assistant.py:9 | `C(n, k) == C(n, n - k)`, which justifies replacing k by `min(k, n - k)`. |
| Combinatorics.RowIsPositive | Perudo-Assistant.py:7-13 | Every coefficient with `0 <= k <= n` is at least 1. |
| Combinatorics.Pow | Perudo-Assistant.py:16 | `x ** e` for a natural exponent is non-negative for `x >= 0` and non-zero for `x != 0`. |
| Combinatorics.IntPow | Perudo-Assistant.py:16 | `x ** e` for an integer exponent fails exactly when `x == 0` and `e < 0`; otherwise it agrees with `Pow` for `e >= 0`. |
| Combinatorics.PointMass | Perudo-Assistant.py:15-16 | The point mass is undefined exactly when `p == 0` and `k < 0`, or `p == 1` and `k > n`. For `0 <= k <= n` it is the binomial term `C(n,k) p^k (1-p)^(n-k)`. |
| Combinatorics.PointMassOutOfRange | Perudo-Assistant.py:15-16 | For k outside `0..n` the point mass, when defined, is 0. |
| Combinatorics.PointMassIsNonnegative | Perudo-Assistant.py:15-16 | For `p` in [0, 1] the point mass is never negative. |
| Combinatorics.MassIsNonnegative | Perudo-Assistant.py:16 | A binomial term with non-negative p and q is non-negative. |
| Combinatorics.BinomialProbability | Perudo-Assistant.py:15-16 | Computing the coefficient by the loop and multiplying by the two powers gives `PointMass(n, p, k)`, including the failing cases. |
| Dice.MatchingFacesOf | Perudo-Assistant.py:474 | A bid on ones is supported only by face 1. A bid on any other face f is supported by `{1, f}`. |
| BidEvaluator.SuccessProbabilityIsShareOfFaces | Perudo-Assistant.py:524 | The per-die success chance (1/6 for ones, 1/3 otherwise) is the share of the six faces that support the bid under the wildcard rule. |
| BidEvaluator.MassSplit | Perudo-Assistant.py:531-533 | An inner binomial term of row m + 1 is `p` times term j of row m plus `q` times term j + 1 of row m. |
| BidEvaluator.LastMassSplit | Perudo-Assistant.py:531-533 | The last term of row m + 1 is p times the last term of row m. |
| BidEvaluator.FirstMassSplit | Perudo-Assistant.py:531-533 | The first term of row m + 1 is q times the first term of row m. |
| BidEvaluator.TailSplit | Perudo-Assistant.py:531-533 | The tail of row m + 1 from j + 1 is `p` times the tail of row m from j plus `q` times the tail of row m from j + 1. |
| BidEvaluator.BinomialTheorem | Perudo-Assistant.py:531-533 | The terms of row n sum to `(p + q)^n`. |
| BidEvaluator.TotalMassIsOne | Perudo-Assistant.py:531-533 | With `q = 1 - p`, the point masses of a row sum to 1. |
| BidEvaluator.TailIsNonnegative | Perudo-Assistant.py:531-533 | A tail with non-negative p and q is non-negative. |
| BidEvaluator.TailIsAntitone | Perudo-Assistant.py:531-533 | Raising the tail's lower bound never increases the tail. |
| BidEvaluator.TailIsProbability | Perudo-Assistant.py:531-533 | For p in [0, 1], every tail of Binomial(n, p) lies in [0, 1]. |
| BidEvaluator.CumulativeIsProbability | Perudo-Assistant.py:515-534 | The evaluator's result lies in [0, 1] for every input. |
| BidEvaluator.RequiredIsAntitone | Perudo-Assistant.py:516-534 | A larger `max(0, Q - known)` never gives a larger result. |
| BidEvaluator.BidQuantityIsAntitone | Perudo-Assistant.py:516-534 | The result does not increase as the bid quantity grows. |
| BidEvaluator.KnownSuccessesIsMonotone | Perudo-Assistant.py:516-534 | The result does not decrease as the number of known matches grows. |
| BidEvaluator.CalculateCumulativeProbability | Perudo-Assistant.py:515-534 | The loop returns `CumulativeProbability`, which is in [0, 1]. With no unknown dice the result is 1 exactly when `Q <= known` and 0 exactly when `Q > known`. It is 1 when nothing more is required, 0 when more is required than there are unknown dice, and otherwise the upper tail from `Q - known`. |
| Counting.Window | Perudo-Assistant.py:493 | An opponent's window of suspected slots is a prefix of the list. It is no longer than the list or than a non-negative dice count. |
| Counting.MatchesAtMostFilled | Perudo-Assistant.py:467-475 | `0 <= matches <= filled slots <= slots`: blank slots add to neither counter. |
| Counting.MatchesByFace | Perudo-Assistant.py:474 | For a bid on ones the match count is the number of ones. For any other face f it is the number of f's plus the number of ones. |
| Counting.CountsOfConcat | Perudo-Assistant.py:467-475 | The filled and matching counts of two runs of slots placed one after the other add up. |
| Counting.PrefixStep | Perudo-Assistant.py:467-475 | Extending a prefix by one slot adds exactly that slot's contribution to each count. |
| Counting.PrefixSumIsBounded | Perudo-Assistant.py:448-449 | With non-negative opponent counts, a prefix of them never sums to more than all of them. |
| Counting.SuspectedFilledIsBounded | Perudo-Assistant.py:487-501 | Each opponent contributes at most its dice count of suspected dice. |
| Counting.SuspectedMatchesAtMostFilled | Perudo-Assistant.py:493-501 | Suspected matches never exceed the suspected dice counted. |
| Counting.SuspectedCountsAreCountsOfSeen | Perudo-Assistant.py:487-501 | The fold's two counts are the filled and the matching slots of the one run of slots it looks at: each opponent's window in turn, skipping opponents without a dice count. So suspected dice are counted exactly as own dice are. |
| Counting.UnknownDiceAreNonnegative | Perudo-Assistant.py:441-451 | With the pool size `update_total_dice` sets and non-negative opponent counts, both `base_unknown_dice` and `suspected_unknown_dice` are at least 0. |
| Counting.CountOwnDice | Perudo-Assistant.py:465-475 | The loop returns the matching and the filled own slots, with `known_successes <= your_dice_count <= len(dice)`. |
| Counting.FoldSuspected | Perudo-Assistant.py:483-501 | The nested loop adds exactly the suspected matches and the filled suspected slots within each opponent's window, and skips opponents without a dice count. Neither count decreases, and the added matches never exceed the added dice. |
| Counting.UpdateTotalDice | Perudo-Assistant.py:441-451 | The total is the number of filled own slots plus the sum of the opponents' counts. With non-negative counts it is at least the number of own dice. |
| Calculator.CalculateIsSound | Perudo-Assistant.py:454-513 | The outcome is invalid exactly when `total_dice <= 0`. Both estimates are probabilities. A suspected estimate exists exactly when the list of per-opponent suspected lists is non-empty, even if those lists hold no dice, and it counts at least the base's known matches, with no more extra matches than extra dice. |
| Calculator.ConsistentPoolHasNoNegativeUnknowns | Perudo-Assistant.py:441-513 | For a positive pool size set by `update_total_dice` and non-negative counts, the outcome is evaluated and neither estimate has a negative unknown count. |
| Calculator.CalculateProbability | Perudo-Assistant.py:454-513 | The guard, the counting loops and the evaluator calls produce `Calculate(...)`. It is invalid exactly when `total_dice <= 0`, and the base probability is in [0, 1]. |
| Calculator.Recalculate | Perudo-Assistant.py:441-452 | `update_total_dice` followed by the recalculation yields `TotalDice` and `Calculate` on it. With non-negative counts, no estimate has a negative unknown count. |

## Left out

- The tkinter user interface is not modelled: widget construction and layout, variable traces and bindings, popups, and enabling or disabling buttons. The widget-count guards in `add_die`, `remove_die`, `change_opponents` and `on_allow_more_players_changed` are part of it. All of this is presentation and UI state, not the engine.
- The label text is not modelled: the percentage formatting and the "Known / Suspected / Unknown" strings. The model returns the numbers that go into them (`Calculator.Estimate`).
- The catch-all `except Exception` in `calculate_probability` is not modelled, and neither are the errors it turns into "Error: ..." label text. One source is outside the model: non-numeric text in a die combobox (the `int(value)` ValueError) or unreadable tk variables, since faces are modelled as integers or blank. The other is the float overflow described under `Combinatorics.PointMass` below.
- Floating point is not modelled. Probabilities are exact `real`, so the source's float results agree with the model only up to IEEE-754 rounding of `p ** k` and of the accumulated sum.
- `binomial_coefficient` works on Python's arbitrary-precision integers, which match Dafny's unbounded `int`, so the coefficient itself never overflows.
- Combinatorics.PointMass: does not capture the OverflowError that `calculate_binomial_probability` raises when it multiplies the coefficient by a float. For a coefficient above the largest double (about 1.8e308, first reached near 1030 unknown dice with k near n/2), the conversion to float fails. The `except` in `calculate_probability` then writes an error to both labels, whereas `PointMass`, `CumulativeProbability` and `Calculator.Calculate` return a probability. The float range is not modelled.
- The `__main__` entry point is not modelled.
- The evaluator does not reject inconsistent inputs, and neither does the model: negative counts, more known than total dice, and faces outside 1..6 all go through. The code raises nothing here.
