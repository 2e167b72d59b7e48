/** The capacity index: `group_index = cumsum([0] + group_sizes)` and the
    check that there are enough slots for every participant row. */
module Capacity {
  import opened Failures

  function Sum(xs: seq<nat>): nat
  {
    if |xs| == 0 then 0 else Sum(xs[..|xs| - 1]) + xs[|xs| - 1]
  }

  /** `index` is the list of running totals of `sizes`, starting at 0:
      group `k` owns the slots from `index[k]` up to (not including) `index[k + 1]`. */
  ghost predicate Accumulates(index: seq<nat>, sizes: seq<nat>)
  {
    |index| == |sizes| + 1 && index[0] == 0 &&
    forall k {:trigger sizes[k]} :: 0 <= k < |sizes| ==> index[k + 1] == index[k] + sizes[k]
  }

  /** `numpy.cumsum([0] + sizes)`. */
  function CumSum(sizes: seq<nat>): (index: seq<nat>)
    ensures Accumulates(index, sizes)
  {
    if |sizes| == 0 then [0]
    else
      var before := CumSum(sizes[..|sizes| - 1]);
      before + [before[|sizes| - 1] + sizes[|sizes| - 1]]
  }

  /** An index of group boundaries: starts at 0 and never decreases. */
  ghost predicate IsIndex(index: seq<nat>)
  {
    |index| >= 1 && index[0] == 0 &&
    forall i, j :: 0 <= i <= j < |index| ==> index[i] <= index[j]
  }

  function Last(index: seq<nat>): nat
    requires |index| >= 1
  {
    index[|index| - 1]
  }

  /** Every entry of the running totals is the sum of the sizes before it. */
  lemma {:induction false} PrefixSum(index: seq<nat>, sizes: seq<nat>, k: nat)
    requires Accumulates(index, sizes) && k <= |sizes|
    ensures index[k] == Sum(sizes[..k])
  {
    if k > 0 {
      PrefixSum(index, sizes, k - 1);
      assert sizes[..k][..k - 1] == sizes[..k - 1];
      assert index[k] == index[k - 1] + sizes[k - 1];
    } else {
      assert sizes[..0] == [];
    }
  }

  /** The last entry is the total number of slots. */
  lemma TotalSlots(index: seq<nat>, sizes: seq<nat>)
    requires Accumulates(index, sizes)
    ensures Last(index) == Sum(sizes)
  {
    PrefixSum(index, sizes, |sizes|);
    assert sizes[..|sizes|] == sizes;
  }

  /** The running totals never decrease. */
  lemma AccumulatesIsIndex(index: seq<nat>, sizes: seq<nat>)
    requires Accumulates(index, sizes)
    ensures IsIndex(index)
  {
    forall i, j | 0 <= i <= j < |index| ensures index[i] <= index[j] {
      Ascending(index, sizes, i, j);
    }
  }

  lemma {:induction false} Ascending(index: seq<nat>, sizes: seq<nat>, i: nat, j: nat)
    requires Accumulates(index, sizes) && i <= j <= |sizes|
    ensures index[i] <= index[j]
  {
    if i < j {
      Ascending(index, sizes, i, j - 1);
      assert index[j] == index[j - 1] + sizes[j - 1];
    }
  }

  /** The run stops exactly when there are more participant rows than slots,
      reporting the count, the sizes and the total; otherwise it continues
      with the total number of slots, which is then at least the count. */
  function CheckCapacity(participants: nat, sizes: seq<nat>): (r: Result<nat>)
    ensures r.Err? <==> participants > Last(CumSum(sizes))
    ensures r.Err? ==> r.error == TooManyParticipants(participants, sizes, Sum(sizes))
    ensures r.Ok? ==> r.value == Sum(sizes) && participants <= r.value
  {
    var index := CumSum(sizes);
    TotalSlots(index, sizes);
    if participants > Last(index) then Err(TooManyParticipants(participants, sizes, Last(index)))
    else Ok(Last(index))
  }

  /** A group `A=1` cannot take two participants. */
  lemma SingleSlotTwoParticipants()
    ensures CheckCapacity(2, [1]) == Err(TooManyParticipants(2, [1], 1))
  {
    assert [1][..0] == [];
  }
}
