/** Counting the dice on the table: the own dice that support a bid, the
    suspected opponent dice folded in on top of them, and the size of the
    whole pool. Blank slots count for nothing. */
module Counting {
  import opened Wrappers
  import opened Dice

  // ---------------------------------------------------------------------
  // Specification functions, each defined by dropping the last slot so that
  // they follow the ascending loops of the source.

  /** Number of slots that hold a face. */
  function Filled(dice: seq<Slot>): (count: nat)
  {
    if |dice| == 0 then 0
    else Filled(dice[..|dice| - 1]) + (if dice[|dice| - 1].Some? then 1 else 0)
  }

  /** Number of slots whose face supports a bid on `bidFace`. */
  function Matches(dice: seq<Slot>, bidFace: int): (count: nat)
  {
    if |dice| == 0 then 0
    else
      var last := dice[|dice| - 1];
      Matches(dice[..|dice| - 1], bidFace) + (if last.Some? && IsMatch(last.value, bidFace) then 1 else 0)
  }

  /** Number of slots showing exactly `face`. */
  function FaceCount(dice: seq<Slot>, face: int): (count: nat)
  {
    if |dice| == 0 then 0
    else FaceCount(dice[..|dice| - 1], face) + (if dice[|dice| - 1] == Some(face) then 1 else 0)
  }

  /** Sum of a sequence of dice counts. */
  function Sum(counts: seq<int>): (total: int)
  {
    if |counts| == 0 then 0 else Sum(counts[..|counts| - 1]) + counts[|counts| - 1]
  }

  /** The suspected slots of one opponent that are looked at: the first
      min(|slots|, count) of them, none when count is not positive. */
  function Window(slots: seq<Slot>, count: int): (w: seq<Slot>)
    ensures |w| <= |slots| && (count >= 0 ==> |w| <= count)
    ensures w == slots[..|w|]
  {
    if count <= 0 then [] else if count < |slots| then slots[..count] else slots
  }

  /** Matching suspected dice over the opponents that have a dice count;
      an opponent without one (index past `counts`) is skipped. */
  function SuspectedMatches(suspected: seq<seq<Slot>>, counts: seq<int>, bidFace: int): (count: nat)
  {
    if |suspected| == 0 then 0
    else
      var i := |suspected| - 1;
      SuspectedMatches(suspected[..i], counts, bidFace)
      + (if i < |counts| then Matches(Window(suspected[i], counts[i]), bidFace) else 0)
  }

  /** Filled suspected slots over the opponents that have a dice count. */
  function SuspectedFilled(suspected: seq<seq<Slot>>, counts: seq<int>): (count: nat)
  {
    if |suspected| == 0 then 0
    else
      var i := |suspected| - 1;
      SuspectedFilled(suspected[..i], counts) + (if i < |counts| then Filled(Window(suspected[i], counts[i])) else 0)
  }

  /** The suspected slots the fold looks at, opponent after opponent, as
      one run of slots. */
  function SeenSuspected(suspected: seq<seq<Slot>>, counts: seq<int>): (seen: seq<Slot>)
  {
    if |suspected| == 0 then []
    else
      var i := |suspected| - 1;
      SeenSuspected(suspected[..i], counts) + (if i < |counts| then Window(suspected[i], counts[i]) else [])
  }

  /** The pool size update_total_dice computes. */
  function TotalDice(ownDice: seq<Slot>, counts: seq<int>): (total: int)
  {
    Filled(ownDice) + Sum(counts)
  }

  predicate AllNonnegative(counts: seq<int>)
  {
    forall i :: 0 <= i < |counts| ==> counts[i] >= 0
  }

  // ---------------------------------------------------------------------
  // Properties of the counts.

  /** A matching slot is a filled slot: 0 <= matches <= filled <= slots. */
  lemma {:induction false} MatchesAtMostFilled(dice: seq<Slot>, bidFace: int)
    ensures Matches(dice, bidFace) <= Filled(dice) <= |dice|
  {
    if |dice| > 0 {
      MatchesAtMostFilled(dice[..|dice| - 1], bidFace);
    }
  }

  /** The wildcard rule in counts: a bid on ones is supported by the ones;
      a bid on any other face by that face and by the ones. */
  lemma {:induction false} MatchesByFace(dice: seq<Slot>, bidFace: int)
    ensures bidFace == 1 ==> Matches(dice, bidFace) == FaceCount(dice, 1)
    ensures bidFace != 1 ==> Matches(dice, bidFace) == FaceCount(dice, bidFace) + FaceCount(dice, 1)
  {
    if |dice| > 0 {
      MatchesByFace(dice[..|dice| - 1], bidFace);
    }
  }

  /** Counting two runs of slots one after the other adds up. */
  lemma {:induction false} CountsOfConcat(s: seq<Slot>, t: seq<Slot>, bidFace: int)
    ensures Filled(s + t) == Filled(s) + Filled(t)
    ensures Matches(s + t, bidFace) == Matches(s, bidFace) + Matches(t, bidFace)
    decreases |t|
  {
    if |t| == 0 {
      assert s + t == s;
    } else {
      var t' := t[..|t| - 1];
      assert (s + t)[..|s + t| - 1] == s + t';
      CountsOfConcat(s, t', bidFace);
    }
  }

  /** Folding in the suspected dice counts them exactly as the own dice are
      counted: the fold's two counts are the filled and the matching slots of
      the run of slots it looks at. */
  lemma {:induction false} SuspectedCountsAreCountsOfSeen(suspected: seq<seq<Slot>>, counts: seq<int>, bidFace: int)
    ensures SuspectedFilled(suspected, counts) == Filled(SeenSuspected(suspected, counts))
    ensures SuspectedMatches(suspected, counts, bidFace) == Matches(SeenSuspected(suspected, counts), bidFace)
  {
    if |suspected| > 0 {
      var i := |suspected| - 1;
      SuspectedCountsAreCountsOfSeen(suspected[..i], counts, bidFace);
      var w := if i < |counts| then Window(suspected[i], counts[i]) else [];
      CountsOfConcat(SeenSuspected(suspected[..i], counts), w, bidFace);
    }
  }

  /** Counting a prefix one slot longer adds that slot. */
  lemma PrefixStep(dice: seq<Slot>, i: nat, bidFace: int)
    requires i < |dice|
    ensures Filled(dice[..i + 1]) == Filled(dice[..i]) + (if dice[i].Some? then 1 else 0)
    ensures Matches(dice[..i + 1], bidFace)
         == Matches(dice[..i], bidFace) + (if dice[i].Some? && IsMatch(dice[i].value, bidFace) then 1 else 0)
  {
    assert dice[..i + 1][..i] == dice[..i];
  }

  lemma SumPrefixStep(counts: seq<int>, i: nat)
    requires i < |counts|
    ensures Sum(counts[..i + 1]) == Sum(counts[..i]) + counts[i]
  {
    assert counts[..i + 1][..i] == counts[..i];
  }

  /** With non-negative counts a prefix never sums to more than the whole. */
  lemma {:induction false} PrefixSumIsBounded(counts: seq<int>, i: nat)
    requires AllNonnegative(counts) && i <= |counts|
    ensures Sum(counts[..i]) <= Sum(counts)
    decreases |counts| - i
  {
    if i < |counts| {
      SumPrefixStep(counts, i);
      PrefixSumIsBounded(counts, i + 1);
    } else {
      assert counts[..i] == counts;
    }
  }

  /** Each opponent contributes at most its dice count of suspected dice. */
  lemma {:induction false} SuspectedFilledIsBounded(suspected: seq<seq<Slot>>, counts: seq<int>)
    requires AllNonnegative(counts)
    ensures SuspectedFilled(suspected, counts)
         <= Sum(counts[..if |suspected| < |counts| then |suspected| else |counts|])
  {
    if |suspected| > 0 {
      var i := |suspected| - 1;
      SuspectedFilledIsBounded(suspected[..i], counts);
      if i < |counts| {
        MatchesAtMostFilled(Window(suspected[i], counts[i]), 0);
        SumPrefixStep(counts, i);
      }
    }
  }

  /** Suspected matches are among the filled suspected slots. */
  lemma {:induction false} SuspectedMatchesAtMostFilled(suspected: seq<seq<Slot>>, counts: seq<int>, bidFace: int)
    ensures SuspectedMatches(suspected, counts, bidFace) <= SuspectedFilled(suspected, counts)
  {
    if |suspected| > 0 {
      var i := |suspected| - 1;
      SuspectedMatchesAtMostFilled(suspected[..i], counts, bidFace);
      if i < |counts| {
        MatchesAtMostFilled(Window(suspected[i], counts[i]), bidFace);
      }
    }
  }

  /** When the pool size is the one update_total_dice sets and no opponent
      count is negative, neither unknown-dice count can be negative. */
  lemma UnknownDiceAreNonnegative(ownDice: seq<Slot>, counts: seq<int>, suspected: seq<seq<Slot>>)
    requires AllNonnegative(counts)
    ensures TotalDice(ownDice, counts) - Filled(ownDice) >= 0
    ensures TotalDice(ownDice, counts) - (Filled(ownDice) + SuspectedFilled(suspected, counts)) >= 0
  {
    var m := if |suspected| < |counts| then |suspected| else |counts|;
    SuspectedFilledIsBounded(suspected, counts);
    PrefixSumIsBounded(counts, m);
    PrefixSumIsBounded(counts, 0);
  }

  // ---------------------------------------------------------------------
  // The counting loops as the source runs them.

  /** The loop over the own dice in calculate_probability: blank slots are
      skipped, every other slot is counted, and the matching ones counted
      as known successes. */
  method CountOwnDice(ownDice: seq<Slot>, bidFace: int) returns (knownSuccesses: nat, yourDiceCount: nat)
    ensures knownSuccesses == Matches(ownDice, bidFace)
    ensures yourDiceCount == Filled(ownDice)
    ensures knownSuccesses <= yourDiceCount <= |ownDice|
  {
    knownSuccesses, yourDiceCount := 0, 0;
    for i := 0 to |ownDice|
      invariant knownSuccesses == Matches(ownDice[..i], bidFace)
      invariant yourDiceCount == Filled(ownDice[..i])
    {
      PrefixStep(ownDice, i, bidFace);
      var slot := ownDice[i];
      if slot.None? {
        continue;
      }
      yourDiceCount := yourDiceCount + 1;
      var face := slot.value;
      if face == bidFace || (face == 1 && bidFace != 1) {
        knownSuccesses := knownSuccesses + 1;
      }
    }
    assert ownDice[..|ownDice|] == ownDice;
    MatchesAtMostFilled(ownDice, bidFace);
  }

  /** The nested loop that folds the suspected dice into the counts: for
      each opponent that has a dice count, the first min(|slots|, count)
      suspected slots are counted like own dice. */
  method FoldSuspected(suspected: seq<seq<Slot>>, counts: seq<int>, bidFace: int,
                       knownSuccesses: nat, yourDiceCount: nat)
    returns (suspectedSuccesses: nat, suspectedDiceCount: nat)
    ensures suspectedSuccesses == knownSuccesses + SuspectedMatches(suspected, counts, bidFace)
    ensures suspectedDiceCount == yourDiceCount + SuspectedFilled(suspected, counts)
    ensures suspectedSuccesses >= knownSuccesses && suspectedDiceCount >= yourDiceCount
    ensures suspectedSuccesses - knownSuccesses <= suspectedDiceCount - yourDiceCount
  {
    suspectedSuccesses, suspectedDiceCount := knownSuccesses, yourDiceCount;
    for oppIdx := 0 to |suspected|
      invariant suspectedSuccesses == knownSuccesses + SuspectedMatches(suspected[..oppIdx], counts, bidFace)
      invariant suspectedDiceCount == yourDiceCount + SuspectedFilled(suspected[..oppIdx], counts)
    {
      assert suspected[..oppIdx + 1][..oppIdx] == suspected[..oppIdx];
      if oppIdx >= |counts| {
        continue;
      }
      var slots := suspected[oppIdx];
      var oppDiceCount := counts[oppIdx];
      var window := Window(slots, oppDiceCount);
      var limit := if |slots| < oppDiceCount then |slots| else oppDiceCount;
      var start0, count0 := suspectedSuccesses, suspectedDiceCount;
      var i := 0;
      while i < limit
        invariant 0 <= i && (limit >= 0 ==> i <= limit) && (limit < 0 ==> i == 0)
        invariant i <= |window| && window[..i] == slots[..i]
        invariant suspectedSuccesses == start0 + Matches(window[..i], bidFace)
        invariant suspectedDiceCount == count0 + Filled(window[..i])
      {
        PrefixStep(window, i, bidFace);
        var slot := slots[i];
        if slot.None? {
          i := i + 1;
          continue;
        }
        suspectedDiceCount := suspectedDiceCount + 1;
        var face := slot.value;
        if face == bidFace || (face == 1 && bidFace != 1) {
          suspectedSuccesses := suspectedSuccesses + 1;
        }
        i := i + 1;
      }
      assert window[..i] == window;
    }
    assert suspected[..|suspected|] == suspected;
    SuspectedMatchesAtMostFilled(suspected, counts, bidFace);
  }

  /** update_total_dice: the filled own slots plus every opponent's count. */
  method UpdateTotalDice(ownDice: seq<Slot>, counts: seq<int>) returns (total: int)
    ensures total == TotalDice(ownDice, counts)
    ensures AllNonnegative(counts) ==> total >= Filled(ownDice)
  {
    total := 0;
    for i := 0 to |ownDice|
      invariant total == Filled(ownDice[..i])
    {
      PrefixStep(ownDice, i, 0);
      if ownDice[i] != None {
        total := total + 1;
      }
    }
    assert ownDice[..|ownDice|] == ownDice;
    for i := 0 to |counts|
      invariant total == Filled(ownDice) + Sum(counts[..i])
    {
      SumPrefixStep(counts, i);
      total := total + counts[i];
    }
    assert counts[..|counts|] == counts;
    if AllNonnegative(counts) {
      UnknownDiceAreNonnegative(ownDice, counts, []);
    }
  }
}
