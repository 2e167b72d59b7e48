/** What the assignment solver (`scipy.optimize.linear_sum_assignment`) is
    relied on to return for a participants x slots cost matrix: one distinct
    slot per participant, and among those the cheapest in total. The solver
    itself is not modelled; only its contract is. */
module Matching {

  /** `cols[r]` is the slot given to participant `r`: every participant gets
      a slot below `slots`, and no slot is given twice. */
  predicate IsMatching(cols: seq<nat>, participants: nat, slots: nat)
  {
    |cols| == participants &&
    (forall r :: 0 <= r < |cols| ==> cols[r] < slots) &&
    forall r, q :: 0 <= r < q < |cols| ==> cols[r] != cols[q]
  }

  /** Every row of the matrix has one cost per slot. */
  predicate Rectangular(costs: seq<seq<nat>>, slots: nat)
  {
    forall r :: 0 <= r < |costs| ==> |costs[r]| == slots
  }

  /** `costs[row_ind, col_ind].sum()`: the total cost of the first `|cols|`
      rows under the matching. */
  function MatchingCost(costs: seq<seq<nat>>, cols: seq<nat>): nat
    requires |cols| <= |costs| && forall r :: 0 <= r < |cols| ==> cols[r] < |costs[r]|
  {
    if |cols| == 0 then 0
    else MatchingCost(costs, cols[..|cols| - 1]) + costs[|cols| - 1][cols[|cols| - 1]]
  }

  /** A matching of every row whose total cost no other matching undercuts. */
  ghost predicate IsOptimal(costs: seq<seq<nat>>, slots: nat, cols: seq<nat>)
    requires Rectangular(costs, slots)
  {
    IsMatching(cols, |costs|, slots) &&
    forall other :: IsMatching(other, |costs|, slots) ==> MatchingCost(costs, cols) <= MatchingCost(costs, other)
  }

  /** The integers from `lo` up to, not including, `hi`. */
  function Range(lo: nat, hi: nat): (r: set<nat>)
    ensures forall x :: x in r <==> lo <= x < hi
    ensures lo <= hi ==> |r| == hi - lo
    decreases hi
  {
    if hi <= lo then {} else Range(lo, hi - 1) + {hi - 1}
  }

  /** The slots a matching uses. */
  function Used(cols: seq<nat>): (r: set<nat>)
    ensures forall x :: x in r <==> x in cols
  {
    if |cols| == 0 then {} else Used(cols[..|cols| - 1]) + {cols[|cols| - 1]}
  }

  /** Distinct participants use distinct slots, so a matching uses as many
      slots as it has participants. */
  lemma {:induction false} UsedCount(cols: seq<nat>)
    requires forall r, q :: 0 <= r < q < |cols| ==> cols[r] != cols[q]
    ensures |Used(cols)| == |cols|
  {
    if |cols| > 0 {
      var init := cols[..|cols| - 1];
      UsedCount(init);
      assert cols[|cols| - 1] !in init;
    }
  }

  /** A matching of every participant exists exactly when there are at least
      as many slots as participants: the capacity check rejects precisely
      the inputs the solver could not match. */
  lemma MatchingExistsIff(participants: nat, slots: nat)
    ensures (exists cols :: IsMatching(cols, participants, slots)) <==> participants <= slots
  {
    if participants <= slots {
      var identity := seq(participants, r requires 0 <= r => r as nat);
      assert IsMatching(identity, participants, slots);
    }
    if exists cols :: IsMatching(cols, participants, slots) {
      var cols :| IsMatching(cols, participants, slots);
      UsedCount(cols);
      assert Used(cols) <= Range(0, slots);
      assert |Used(cols)| <= |Range(0, slots)| by {
        SubsetCard(Used(cols), Range(0, slots));
      }
    }
  }

  lemma SubsetCard(a: set<nat>, b: set<nat>)
    requires a <= b
    ensures |a| <= |b|
  {
    assert b == a + (b - a);
  }

  /** The solver's contract on a small matrix: with costs `[[0, 9], [5, 1]]`
      the diagonal, of total 1, is the optimum, and the crossed matching
      costs 14. */
  lemma DiagonalOptimal()
    ensures IsOptimal([[0, 9], [5, 1]], 2, [0, 1])
    ensures MatchingCost([[0, 9], [5, 1]], [1, 0]) == 14
  {
    var costs := [[0, 9], [5, 1]];
    assert MatchingCost(costs, [0, 1]) == 1 by {
      assert [0, 1][..1] == [0];
      assert [0][..0] == [];
    }
    assert MatchingCost(costs, [1, 0]) == 14 by {
      assert [1, 0][..1] == [1];
      assert [1][..0] == [];
    }
    forall other | IsMatching(other, 2, 2)
      ensures MatchingCost(costs, [0, 1]) <= MatchingCost(costs, other)
    {
      assert other == [0, 1] || other == [1, 0];
    }
  }
}
