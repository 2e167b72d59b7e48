/** Reading the solver's matching back in group terms: how many participants
    each group received (`assigned_sizes`), and the result row written for
    each participant. */
module Decoder {
  import opened Text
  import opened Failures
  import opened GroupHeader
  import opened Capacity
  import opened Slots
  import opened Matching

  /** Every matched slot has an entry in the slot-to-group map. */
  predicate InMap(owners: seq<nat>, cols: seq<nat>)
  {
    forall k :: 0 <= k < |cols| ==> cols[k] < |owners|
  }

  /** The number of matched slots owned by group `g` (`assigned_sizes.get(g, 0)`):
      zero exactly when no participant landed in `g`. */
  function AssignedCount(owners: seq<nat>, cols: seq<nat>, g: nat): (c: nat)
    requires InMap(owners, cols)
    ensures c <= |cols|
    ensures c == 0 <==> forall k :: 0 <= k < |cols| ==> owners[cols[k]] != g
  {
    if |cols| == 0 then 0
    else
      var init := cols[..|cols| - 1];
      assert forall k :: 0 <= k < |init| ==> init[k] == cols[k];
      AssignedCount(owners, init, g) + (if owners[cols[|cols| - 1]] == g then 1 else 0)
  }

  /** The count for every group, in group order. */
  function Counts(owners: seq<nat>, cols: seq<nat>, groups: nat): seq<nat>
    requires InMap(owners, cols)
  {
    seq(groups, g requires 0 <= g < groups => AssignedCount(owners, cols, g))
  }

  lemma {:induction false} SumZeros(n: nat)
    ensures Sum(seq(n, _ => 0)) == 0
  {
    if n > 0 {
      assert seq(n, _ => 0)[..n - 1] == seq(n - 1, _ => 0);
      SumZeros(n - 1);
    }
  }

  lemma {:induction false} SumBump(xs: seq<nat>, p: nat)
    requires p < |xs|
    ensures Sum(xs[p := xs[p] + 1]) == Sum(xs) + 1
  {
    var ys := xs[p := xs[p] + 1];
    var n := |xs|;
    if p == n - 1 {
      assert ys[..n - 1] == xs[..n - 1];
    } else {
      assert ys[..n - 1] == xs[..n - 1][p := xs[p] + 1];
      SumBump(xs[..n - 1], p);
    }
  }

  /** Every participant is counted exactly once: the counts add up to the
      number of matched participants. */
  lemma {:induction false} CountsSum(owners: seq<nat>, cols: seq<nat>, groups: nat)
    requires InMap(owners, cols)
    requires forall k :: 0 <= k < |cols| ==> owners[cols[k]] < groups
    ensures Sum(Counts(owners, cols, groups)) == |cols|
  {
    if |cols| == 0 {
      assert Counts(owners, cols, groups) == seq(groups, _ => 0);
      SumZeros(groups);
    } else {
      var init := cols[..|cols| - 1];
      var o := owners[cols[|cols| - 1]];
      CountsSum(owners, init, groups);
      var before := Counts(owners, init, groups);
      assert Counts(owners, cols, groups) == before[o := before[o] + 1];
      SumBump(before, o);
    }
  }

  /** The slots of group `g` that the matching uses. */
  function AssignedSlots(owners: seq<nat>, cols: seq<nat>, g: nat): (r: set<nat>)
    requires InMap(owners, cols)
    ensures forall s :: s in r <==> s in cols && owners[s] == g
  {
    if |cols| == 0 then {}
    else
      var init := cols[..|cols| - 1];
      var last := cols[|cols| - 1];
      assert forall s :: s in cols <==> s in init || s == last;
      AssignedSlots(owners, init, g) + (if owners[last] == g then {last} else {})
  }

  lemma {:induction false} AssignedSlotsCount(owners: seq<nat>, cols: seq<nat>, g: nat)
    requires InMap(owners, cols)
    requires forall r, q :: 0 <= r < q < |cols| ==> cols[r] != cols[q]
    ensures |AssignedSlots(owners, cols, g)| == AssignedCount(owners, cols, g)
  {
    if |cols| > 0 {
      var init := cols[..|cols| - 1];
      AssignedSlotsCount(owners, init, g);
      assert cols[|cols| - 1] !in AssignedSlots(owners, init, g);
    }
  }

  /** The used slots of group `g` lie in its range. */
  lemma AssignedWithinRange(owners: seq<nat>, index: seq<nat>, cols: seq<nat>, g: nat)
    requires |index| >= 1 && OwnsSlots(owners, index) && InMap(owners, cols)
    requires g + 1 < |index|
    ensures AssignedSlots(owners, cols, g) <= Range(index[g], index[g + 1])
  {
    var used := AssignedSlots(owners, cols, g);
    var range := Range(index[g], index[g + 1]);
    forall s | s in used
      ensures s in range
    {
      assert s in cols && owners[s] == g;
      var k :| 0 <= k < |cols| && cols[k] == s;
      assert s < |owners|;
    }
  }

  /** Since no slot is given twice, a group never receives more participants
      than it has slots. */
  lemma CountWithinSize(owners: seq<nat>, index: seq<nat>, sizes: seq<nat>, cols: seq<nat>, g: nat)
    requires Accumulates(index, sizes) && OwnsSlots(owners, index)
    requires IsMatching(cols, |cols|, |owners|)
    requires g < |sizes|
    ensures AssignedCount(owners, cols, g) <= sizes[g]
  {
    AssignedSlotsCount(owners, cols, g);
    AssignedWithinRange(owners, index, cols, g);
    SubsetCard(AssignedSlots(owners, cols, g), Range(index[g], index[g + 1]));
    assert index[g + 1] == index[g] + sizes[g];
  }

  /** Where one participant ended up: the group and the cost that slot has
      in the participant's row. */
  datatype Placement = Placement(name: string, group: nat, cost: nat)

  /** The result row: the name, one blank cell per group before the assigned
      one, and the realised cost. */
  function ResultRow(p: Placement): seq<string>
  {
    [p.name] + seq(p.group, _ => "") + [ShowNat(p.cost)]
  }

  /** Reads a result row back: the group is the number of blank cells
      between the name and the cost. */
  function ReadRow(row: seq<string>): Option<Placement>
  {
    if |row| >= 2 && (forall j :: 1 <= j < |row| - 1 ==> row[j] == "") && IsDigits(row[|row| - 1])
    then Some(Placement(row[0], |row| - 2, ParseNat(row[|row| - 1])))
    else None
  }

  /** A result row says unambiguously where the participant went and at
      what cost: reading it back gives the placement it was written from. */
  lemma ReadResultRow(p: Placement)
    ensures ReadRow(ResultRow(p)) == Some(p)
  {
    var row := ResultRow(p);
    assert row[|row| - 1] == ShowNat(p.cost);
    ParseShow(p.cost);
  }

  /** The header row of the result: the corner cell, then `<name>=<count>`
      per group. Reading it back as an input header gives the same names,
      with the counts as sizes. */
  function ResultHeader(corner: string, groupNames: seq<string>, counts: seq<nat>): (row: seq<string>)
    requires |groupNames| == |counts| > 0
    requires forall k :: 0 <= k < |groupNames| ==> '=' !in groupNames[k]
    ensures ParseHeader(row) == Ok(Header(corner, groupNames, counts))
  {
    ParseFormatHeader(corner, groupNames, counts);
    FormatHeader(corner, groupNames, counts)
  }

  /** One result row per participant `r`, who got slot `cols[r]`: it reads
      back as the participant's name, the group owning that slot and the
      cost of that slot in the participant's matrix row. */
  function ResultRows(names: seq<string>, owners: seq<nat>, costs: seq<seq<nat>>, cols: seq<nat>)
    : (rows: seq<seq<string>>)
    requires |names| == |cols| <= |costs| && InMap(owners, cols)
    requires forall r :: 0 <= r < |cols| ==> cols[r] < |costs[r]|
    ensures |rows| == |names|
    ensures forall r :: 0 <= r < |names| ==>
      ReadRow(rows[r]) == Some(Placement(names[r], owners[cols[r]], costs[r][cols[r]]))
  {
    var rows := seq(|names|, r requires 0 <= r < |names| =>
      ResultRow(Placement(names[r], owners[cols[r]], costs[r][cols[r]])));
    forall r | 0 <= r < |names|
      ensures ReadRow(rows[r]) == Some(Placement(names[r], owners[cols[r]], costs[r][cols[r]]))
    {
      ReadResultRow(Placement(names[r], owners[cols[r]], costs[r][cols[r]]));
    }
    rows
  }
}
