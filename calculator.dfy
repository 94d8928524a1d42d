/** calculate_probability without its widgets: from the own dice, the
    opponents' dice counts, the suspected opponent dice, the pool size and
    the bid, the two estimates the calculator shows. */
module Calculator {
  import opened Wrappers
  import opened Dice
  import opened Counting
  import opened BidEvaluator

  /** One estimate: the chance that the bid holds, the dice counted as
      known matches, how many suspected dice went into it (zero for the
      base estimate) and the dice still unknown. */
  datatype Estimate = Estimate(probability: real, known: nat, suspectedDice: nat, unknown: int)

  /** What the two result labels show. `suspected` is None when the list of
      per-opponent suspected lists is empty; an opponent whose list holds no
      dice still makes it non-empty. */
  datatype Outcome =
    | InvalidDiceCount
    | Evaluated(base: Estimate, suspected: Option<Estimate>)

  /** The base estimate: own dice only. */
  function BaseEstimate(ownDice: seq<Slot>, totalDice: int, bidQuantity: int, bidFace: int): (e: Estimate)
  {
    var known := Matches(ownDice, bidFace);
    var unknown := totalDice - Filled(ownDice);
    Estimate(CumulativeProbability(known, unknown, bidFace, bidQuantity), known, 0, unknown)
  }

  /** The estimate with the suspected opponent dice treated as seen. */
  function SuspectedEstimate(ownDice: seq<Slot>, counts: seq<int>, suspected: seq<seq<Slot>>,
                             totalDice: int, bidQuantity: int, bidFace: int): (e: Estimate)
  {
    var known := Matches(ownDice, bidFace) + SuspectedMatches(suspected, counts, bidFace);
    var extra := SuspectedFilled(suspected, counts);
    var unknown := totalDice - (Filled(ownDice) + extra);
    Estimate(CumulativeProbability(known, unknown, bidFace, bidQuantity), known, extra, unknown)
  }

  /** calculate_probability as a function of its inputs. */
  function Calculate(ownDice: seq<Slot>, counts: seq<int>, suspected: seq<seq<Slot>>,
                     totalDice: int, bidQuantity: int, bidFace: int): (r: Outcome)
  {
    if totalDice <= 0 then InvalidDiceCount
    else
      Evaluated(BaseEstimate(ownDice, totalDice, bidQuantity, bidFace),
                if |suspected| > 0 then Some(SuspectedEstimate(ownDice, counts, suspected, totalDice, bidQuantity, bidFace))
                else None)
  }

  /** Every estimate is a probability, and the suspected estimate never
      counts fewer known matches than the base one. */
  lemma CalculateIsSound(ownDice: seq<Slot>, counts: seq<int>, suspected: seq<seq<Slot>>,
                         totalDice: int, bidQuantity: int, bidFace: int)
    ensures var r := Calculate(ownDice, counts, suspected, totalDice, bidQuantity, bidFace);
      && (r.InvalidDiceCount? <==> totalDice <= 0)
      && (r.Evaluated? ==> 0.0 <= r.base.probability <= 1.0 && r.base.known <= |ownDice|)
      && (r.Evaluated? ==> (r.suspected.Some? <==> |suspected| > 0))
      && (r.Evaluated? && r.suspected.Some? ==>
            0.0 <= r.suspected.value.probability <= 1.0
            && r.base.known <= r.suspected.value.known
            && r.suspected.value.known - r.base.known <= r.suspected.value.suspectedDice)
  {
    var base := BaseEstimate(ownDice, totalDice, bidQuantity, bidFace);
    CumulativeIsProbability(base.known, base.unknown, bidFace, bidQuantity);
    MatchesAtMostFilled(ownDice, bidFace);
    var s := SuspectedEstimate(ownDice, counts, suspected, totalDice, bidQuantity, bidFace);
    CumulativeIsProbability(s.known, s.unknown, bidFace, bidQuantity);
    SuspectedMatchesAtMostFilled(suspected, counts, bidFace);
  }

  /** With the pool size update_total_dice sets and non-negative opponent
      counts, a positive pool is evaluated and neither estimate sees a
      negative number of unknown dice. */
  lemma ConsistentPoolHasNoNegativeUnknowns(ownDice: seq<Slot>, counts: seq<int>, suspected: seq<seq<Slot>>,
                                            bidQuantity: int, bidFace: int)
    requires AllNonnegative(counts)
    requires TotalDice(ownDice, counts) > 0
    ensures var r := Calculate(ownDice, counts, suspected, TotalDice(ownDice, counts), bidQuantity, bidFace);
      && r.Evaluated?
      && r.base.unknown >= 0
      && (r.suspected.Some? ==> r.suspected.value.unknown >= 0)
  {
    UnknownDiceAreNonnegative(ownDice, counts, suspected);
  }

  /** calculate_probability: the pool-size guard, the own-dice loop and the
      base estimate, then, when suspected dice exist, the folding loop and
      the suspected estimate. */
  method CalculateProbability(ownDice: seq<Slot>, counts: seq<int>, suspected: seq<seq<Slot>>,
                              totalDice: int, bidQuantity: int, bidFace: int)
    returns (r: Outcome)
    ensures r == Calculate(ownDice, counts, suspected, totalDice, bidQuantity, bidFace)
    ensures r.InvalidDiceCount? <==> totalDice <= 0
    ensures r.Evaluated? ==> 0.0 <= r.base.probability <= 1.0
  {
    CalculateIsSound(ownDice, counts, suspected, totalDice, bidQuantity, bidFace);
    if totalDice <= 0 {
      return InvalidDiceCount;
    }
    var knownSuccesses, yourDiceCount := CountOwnDice(ownDice, bidFace);
    var baseUnknownDice := totalDice - yourDiceCount;
    var baseProb := CalculateCumulativeProbability(knownSuccesses, baseUnknownDice, bidFace, bidQuantity);
    var base := Estimate(baseProb, knownSuccesses, 0, baseUnknownDice);
    if |suspected| > 0 {
      var suspectedSuccesses, suspectedDiceCount :=
        FoldSuspected(suspected, counts, bidFace, knownSuccesses, yourDiceCount);
      var suspectedUnknownDice := totalDice - suspectedDiceCount;
      var suspectedProb := CalculateCumulativeProbability(suspectedSuccesses, suspectedUnknownDice, bidFace, bidQuantity);
      r := Evaluated(base, Some(Estimate(suspectedProb, suspectedSuccesses,
                                         suspectedDiceCount - yourDiceCount, suspectedUnknownDice)));
    } else {
      r := Evaluated(base, None);
    }
  }

  /** update_total_dice followed by the recalculation it triggers. */
  method Recalculate(ownDice: seq<Slot>, counts: seq<int>, suspected: seq<seq<Slot>>,
                     bidQuantity: int, bidFace: int)
    returns (total: int, r: Outcome)
    ensures total == TotalDice(ownDice, counts)
    ensures r == Calculate(ownDice, counts, suspected, total, bidQuantity, bidFace)
    ensures AllNonnegative(counts) && r.Evaluated? ==>
              r.base.unknown >= 0 && (r.suspected.Some? ==> r.suspected.value.unknown >= 0)
  {
    total := UpdateTotalDice(ownDice, counts);
    r := CalculateProbability(ownDice, counts, suspected, total, bidQuantity, bidFace);
    if AllNonnegative(counts) && total > 0 {
      ConsistentPoolHasNoNegativeUnknowns(ownDice, counts, suspected, bidQuantity, bidFace);
    }
  }
}
