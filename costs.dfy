/** The cost matrix: one row per participant and one column per slot,
    filled with the bad-assignment cost and then, for every non-blank
    preference cell, overwritten over the slots of that cell's group. */
module CostMatrix {
  import opened Text
  import opened Failures
  import opened Capacity

  /** Every preference cell that the builder converts holds ASCII digits
      whose value, like the bad-assignment cost, fits in a byte. The builder
      converts the cells within the groups of each row it reaches, that is,
      of each row that no earlier row stopped the run before. */
  predicate CostsFit(rows: seq<seq<string>>, groups: nat, bad: nat)
  {
    bad <= 255 &&
    forall i {:trigger RowsCheck(rows[..i], groups)} ::
      0 <= i < |rows| && RowsCheck(rows[..i], groups) == None ==> RowFits(rows[i], groups)
  }

  /** Every non-blank cell of `row` within the groups is a digit string
      whose value fits in a byte. */
  predicate RowFits(row: seq<string>, groups: nat)
  {
    forall j :: 1 <= j < |row| && j <= groups && row[j] != "" ==>
      IsDigits(row[j]) && ParseNat(row[j]) <= 255
  }

  /** The cost participant row `row` (name first) states for group `g`:
      the number in its cell `g + 1`, or `bad` when that cell is blank or
      the row is shorter. */
  function PrefCost(row: seq<string>, g: nat, bad: nat): nat
    requires g + 1 < |row| && row[g + 1] != "" ==> AllDigits(row[g + 1])
  {
    if g + 1 < |row| && row[g + 1] != "" then ParseNat(row[g + 1]) else bad
  }

  /** A row the builder gets through: it has a name cell, and every cell past
      the last group is blank. */
  predicate RowOk(row: seq<string>, groups: nat)
  {
    |row| > 0 && forall j :: groups < j < |row| ==> row[j] == ""
  }

  /** The first preference cell of row `i` that lies past the last group and
      is not blank: for that cell the builder reads a boundary that does not
      exist. */
  function CellsCheck(i: nat, cells: seq<string>, groups: nat): (r: Option<Failure>)
    ensures r == None <==> forall j :: groups <= j < |cells| ==> cells[j] == ""
    ensures r.Some? ==>
      r.value.PreferenceBeyondGroups? && r.value.row == i &&
      groups <= r.value.column < |cells| && cells[r.value.column] != "" &&
      forall j :: groups <= j < r.value.column ==> cells[j] == ""
  {
    if |cells| == 0 then None
    else
      var last := |cells| - 1;
      assert forall j :: 0 <= j < last ==> cells[..last][j] == cells[j];
      match CellsCheck(i, cells[..last], groups)
      case Some(f) => Some(f)
      case None => if last >= groups && cells[last] != "" then Some(PreferenceBeyondGroups(i, last)) else None
  }

  /** The failure row `i` causes, if any: no name to pop, or a preference
      past the last group. */
  function RowCheck(i: nat, row: seq<string>, groups: nat): (r: Option<Failure>)
    ensures r == None <==> RowOk(row, groups)
  {
    if |row| == 0 then Some(EmptyRow(i)) else CellsCheck(i, row[1..], groups)
  }

  /** The failure of the first row that has one, if any. */
  function RowsCheck(rows: seq<seq<string>>, groups: nat): (r: Option<Failure>)
    ensures r == None <==> forall i :: 0 <= i < |rows| ==> RowOk(rows[i], groups)
    ensures r.Some? ==>
      exists i :: 0 <= i < |rows| && !RowOk(rows[i], groups) &&
        (forall k :: 0 <= k < i ==> RowOk(rows[k], groups)) &&
        r == RowCheck(i, rows[i], groups)
  {
    if |rows| == 0 then None
    else
      var last := |rows| - 1;
      assert forall k :: 0 <= k < last ==> rows[..last][k] == rows[k];
      match RowsCheck(rows[..last], groups)
      case Some(f) => Some(f)
      case None => RowCheck(last, rows[last], groups)
  }

  /** Once a row fails and every row before it passes, later rows do not
      change the reported failure. */
  lemma {:induction false} FirstFailureSticks(rows: seq<seq<string>>, i: nat, groups: nat)
    requires i < |rows| && RowsCheck(rows[..i], groups) == None
    requires RowCheck(i, rows[i], groups).Some?
    ensures RowsCheck(rows, groups) == RowCheck(i, rows[i], groups)
  {
    if |rows| == i + 1 {
      assert rows[..|rows| - 1] == rows[..i];
    } else {
      var shorter := rows[..|rows| - 1];
      assert shorter[..i] == rows[..i];
      FirstFailureSticks(shorter, i, groups);
    }
  }

  /** Numpy's slice assignment `costs[i, lo:hi] = v`. */
  method FillRow(costs: array2<nat>, i: nat, lo: nat, hi: nat, v: nat)
    requires i < costs.Length0 && lo <= hi <= costs.Length1
    modifies costs
    ensures forall r, s :: 0 <= r < costs.Length0 && 0 <= s < costs.Length1 ==>
      costs[r, s] == if r == i && lo <= s < hi then v else old(costs[r, s])
  {
    for s := lo to hi
      invariant forall r, t :: 0 <= r < costs.Length0 && 0 <= t < costs.Length1 ==>
        costs[r, t] == if r == i && lo <= t < s then v else old(costs[r, t])
    {
      costs[i, s] := v;
    }
  }

  /** Fills row `i` of the matrix from participant row `row` (name first):
      each non-blank cell `j + 1` overwrites the slots of group `j` with its
      number; a non-blank cell past the last group stops the run. */
  method FillParticipant(costs: array2<nat>, i: nat, row: seq<string>, index: seq<nat>, bad: nat)
    returns (err: Option<Failure>)
    requires IsIndex(index) && i < costs.Length0 && costs.Length1 == Last(index)
    requires |row| > 0 && RowFits(row, |index| - 1)
    requires forall s :: 0 <= s < costs.Length1 ==> costs[i, s] == bad
    modifies costs
    ensures err == CellsCheck(i, row[1..], |index| - 1)
    ensures forall r, s :: 0 <= r < costs.Length0 && r != i && 0 <= s < costs.Length1 ==>
      costs[r, s] == old(costs[r, s])
    ensures err.None? ==>
      forall g, s :: 0 <= g < |index| - 1 && index[g] <= s < index[g + 1] ==>
        costs[i, s] == PrefCost(row, g, bad)
  {
    var groups := |index| - 1;
    var cells := row[1..];
    err := None;
    for j := 0 to |cells|
      invariant CellsCheck(i, cells[..j], groups) == None
      invariant forall g, s :: 0 <= g < groups && index[g] <= s < index[g + 1] ==>
        costs[i, s] == if g < j then PrefCost(row, g, bad) else bad
      invariant forall r, s :: 0 <= r < costs.Length0 && r != i && 0 <= s < costs.Length1 ==>
        costs[r, s] == old(costs[r, s])
    {
      if cells[j] != "" {
        if j >= groups {
          assert forall k :: groups <= k < j ==> cells[..j][k] == cells[k];
          err := Some(PreferenceBeyondGroups(i, j));
          return;
        }
        FillRow(costs, i, index[j], index[j + 1], ParseNat(cells[j]));
      }
      assert forall k :: 0 <= k < j ==> cells[..j + 1][k] == cells[..j][k];
    }
    assert cells[..|cells|] == cells;
  }

  /** Builds the participants x slots matrix and the list of names. The run
      stops with the failure of the first row that has one; otherwise every
      slot of group `g` in row `i` holds the cost that row states for `g`. */
  method BuildCosts(rows: seq<seq<string>>, index: seq<nat>, bad: nat)
    returns (costs: array2<nat>, names: seq<string>, err: Option<Failure>)
    requires IsIndex(index)
    requires CostsFit(rows, |index| - 1, bad)
    ensures fresh(costs)
    ensures costs.Length0 == |rows| && costs.Length1 == Last(index)
    ensures err == RowsCheck(rows, |index| - 1)
    ensures err.None? ==>
      |names| == |rows| && forall i :: 0 <= i < |rows| ==> |rows[i]| > 0 && names[i] == rows[i][0]
    ensures err.None? ==>
      (forall i :: 0 <= i < |rows| ==> RowFits(rows[i], |index| - 1)) &&
      forall i, g, s :: 0 <= i < |rows| && 0 <= g < |index| - 1 && index[g] <= s < index[g + 1] ==>
        costs[i, s] == PrefCost(rows[i], g, bad)
  {
    var groups := |index| - 1;
    var total := Last(index);
    costs := new nat[|rows|, total]((_, _) => bad);
    names := [];
    err := None;
    for i := 0 to |rows|
      invariant err == None && RowsCheck(rows[..i], groups) == None
      invariant |names| == i && forall r :: 0 <= r < i ==> |rows[r]| > 0 && names[r] == rows[r][0]
      invariant forall r :: 0 <= r < i ==> RowFits(rows[r], groups)
      invariant forall r, g, s :: 0 <= r < i && 0 <= g < groups && index[g] <= s < index[g + 1] ==>
        costs[r, s] == PrefCost(rows[r], g, bad)
      invariant forall r, s :: i <= r < |rows| && 0 <= s < total ==> costs[r, s] == bad
    {
      if |rows[i]| == 0 {
        err := Some(EmptyRow(i));
        FirstFailureSticks(rows, i, groups);
        return;
      }
      names := names + [rows[i][0]];
      err := FillParticipant(costs, i, rows[i], index, bad);
      if err.Some? {
        FirstFailureSticks(rows, i, groups);
        return;
      }
      assert rows[..i + 1][..i] == rows[..i];
    }
    assert rows[..|rows|] == rows;
  }
}
