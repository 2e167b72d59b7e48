/** The slot-to-group map `group_number_from_index`: one entry per slot,
    holding the number of the group that owns it. */
module Slots {
  import opened Capacity

  /** `owners` has one entry per slot below the last boundary, naming a
      group whose half-open range `[index[g], index[g + 1])` holds the slot. */
  ghost predicate OwnsSlots(owners: seq<nat>, index: seq<nat>)
    requires |index| >= 1
  {
    |owners| == Last(index) &&
    forall s :: 0 <= s < |owners| ==>
      owners[s] < |index| - 1 && index[owners[s]] <= s < index[owners[s] + 1]
  }

  /** Since the ranges do not overlap, the owner of a slot is the one group
      whose range holds it. */
  lemma OwnerIff(owners: seq<nat>, index: seq<nat>, s: nat, g: nat)
    requires IsIndex(index) && OwnsSlots(owners, index)
    requires s < |owners| && g < |index| - 1
    ensures owners[s] == g <==> index[g] <= s < index[g + 1]
  {
    var o := owners[s];
    assert o < g ==> index[o + 1] <= index[g];
    assert g < o ==> index[g + 1] <= index[o];
  }

  /** Numpy's slice assignment `owners[lo:hi] = g`. */
  method FillRange(owners: array<nat>, lo: nat, hi: nat, g: nat)
    requires lo <= hi <= owners.Length
    modifies owners
    ensures forall s :: 0 <= s < owners.Length ==> owners[s] == if lo <= s < hi then g else old(owners[s])
  {
    for s := lo to hi
      invariant forall t :: 0 <= t < owners.Length ==> owners[t] == if lo <= t < s then g else old(owners[t])
    {
      owners[s] := g;
    }
  }

  /** Allocates the map and fills each group's range with the group number,
      one range after the other. */
  method FillOwners(index: seq<nat>) returns (owners: array<nat>)
    requires IsIndex(index)
    ensures fresh(owners)
    ensures OwnsSlots(owners[..], index)
    ensures forall s, g :: 0 <= s < owners.Length && 0 <= g < |index| - 1 ==>
      (owners[s] == g <==> index[g] <= s < index[g + 1])
  {
    var groups := |index| - 1;
    owners := new nat[Last(index)];
    for g := 0 to groups
      invariant forall s :: 0 <= s < index[g] ==>
        owners[s] < g && index[owners[s]] <= s < index[owners[s] + 1]
    {
      assert index[g] <= index[g + 1] <= Last(index);
      FillRange(owners, index[g], index[g + 1], g);
    }
    forall s, g | 0 <= s < owners.Length && 0 <= g < groups
      ensures owners[s] == g <==> index[g] <= s < index[g + 1]
    {
      OwnerIff(owners[..], index, s, g);
    }
  }

  /** The map never decreases along the slots. */
  lemma OwnersAscend(owners: seq<nat>, index: seq<nat>, s: nat, t: nat)
    requires IsIndex(index) && OwnsSlots(owners, index)
    requires s <= t < |owners|
    ensures owners[s] <= owners[t]
  {
  }

  /** How many of the first `n` slots lie in `[lo, hi)`. */
  function Overlap(n: nat, lo: nat, hi: nat): nat
    requires lo <= hi
  {
    if n <= lo then 0 else if n >= hi then hi - lo else n - lo
  }

  lemma {:induction false} OwnedAmongFirst(owners: seq<nat>, index: seq<nat>, g: nat, n: nat)
    requires IsIndex(index) && OwnsSlots(owners, index)
    requires g < |index| - 1 && n <= |owners|
    ensures multiset(owners[..n])[g] == Overlap(n, index[g], index[g + 1])
  {
    if n == 0 {
      assert owners[..0] == [];
    } else {
      OwnedAmongFirst(owners, index, g, n - 1);
      assert owners[..n] == owners[..n - 1] + [owners[n - 1]];
      OwnerIff(owners, index, n - 1, g);
    }
  }

  /** Group `g` owns exactly `sizes[g]` slots. */
  lemma SlotsPerGroup(owners: seq<nat>, index: seq<nat>, sizes: seq<nat>, g: nat)
    requires Accumulates(index, sizes) && OwnsSlots(owners, index)
    requires g < |sizes|
    ensures multiset(owners)[g] == sizes[g]
  {
    AccumulatesIsIndex(index, sizes);
    assert index[g + 1] == index[g] + sizes[g];
    assert index[g + 1] <= Last(index);
    OwnedAmongFirst(owners, index, g, |owners|);
    assert owners[..|owners|] == owners;
  }
}
