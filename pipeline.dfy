/** The whole `assign2groups` run between reading the CSV and writing the
    result: validate the header, check the capacity, build the slot map and
    the cost matrix, and, given the solver's matching, produce the result
    rows. */
module Pipeline {
  import opened Text
  import opened Failures
  import opened GroupHeader
  import opened Capacity
  import opened Slots
  import opened CostMatrix
  import opened Matching
  import opened Decoder

  /** Everything the run computes before calling the solver. */
  datatype Problem = Problem(
    corner: string,
    groupNames: seq<string>,
    sizes: seq<nat>,
    index: seq<nat>,
    owners: seq<nat>,
    names: seq<string>,
    costs: seq<seq<nat>>)

  /** The shape every prepared problem has. */
  ghost predicate WellFormed(p: Problem)
  {
    |p.groupNames| == |p.sizes| > 0 &&
    (forall k :: 0 <= k < |p.groupNames| ==> '=' !in p.groupNames[k]) &&
    Accumulates(p.index, p.sizes) && OwnsSlots(p.owners, p.index) &&
    |p.costs| == |p.names| <= |p.owners| && Rectangular(p.costs, |p.owners|)
  }

  /** `p` is what the run builds from `header` and the participant `rows`:
      the parsed header, the running totals of the sizes, the slot map,
      the names popped off the rows, and a matrix whose cell `[i][s]` is the
      cost row `i` states for the group that owns slot `s`. */
  ghost predicate Built(p: Problem, header: seq<string>, rows: seq<seq<string>>, bad: nat)
  {
    WellFormed(p) &&
    ParseHeader(header) == Ok(Header(p.corner, p.groupNames, p.sizes)) &&
    bad <= 255 && (forall i :: 0 <= i < |rows| ==> RowFits(rows[i], |p.sizes|)) &&
    |p.names| == |rows| && (forall i :: 0 <= i < |rows| ==> |rows[i]| > 0 && p.names[i] == rows[i][0]) &&
    forall i, s :: 0 <= i < |rows| && 0 <= s < |p.owners| ==>
      p.costs[i][s] == PrefCost(rows[i], p.owners[s], bad)
  }

  /** The failure the run stops with, checked in the order the run meets
      them: the header, the capacity, then the rows one by one. */
  function Check(header: seq<string>, rows: seq<seq<string>>): Option<Failure>
  {
    match ParseHeader(header)
    case Err(f) => Some(f)
    case Ok(h) =>
      match CheckCapacity(|rows|, h.sizes)
      case Err(f) => Some(f)
      case Ok(_) => RowsCheck(rows, |h.sizes|)
  }

  /** An input gets past every check exactly when its header parses, its
      groups have room for every participant row, and every row has a name
      and nothing past the last group. */
  lemma AcceptedInput(header: seq<string>, rows: seq<seq<string>>)
    ensures Check(header, rows) == None <==>
      ParseHeader(header).Ok? &&
      |rows| <= Sum(ParseHeader(header).value.sizes) &&
      forall i :: 0 <= i < |rows| ==> RowOk(rows[i], |ParseHeader(header).value.sizes|)
  {
    var parsed := ParseHeader(header);
    if parsed.Ok? {
      TotalSlots(CumSum(parsed.value.sizes), parsed.value.sizes);
    }
  }

  /** Runs the steps before the solver. It fails with exactly the failure
      `Check` names; otherwise it returns the problem built from the input. */
  method Prepare(header: seq<string>, rows: seq<seq<string>>, bad: nat) returns (r: Result<Problem>)
    requires ParseHeader(header).Ok? && CheckCapacity(|rows|, ParseHeader(header).value.sizes).Ok? ==>
      CostsFit(rows, |ParseHeader(header).value.sizes|, bad)
    ensures r.Err? <==> Check(header, rows).Some?
    ensures r.Err? ==> Check(header, rows) == Some(r.error)
    ensures r.Ok? ==> Built(r.value, header, rows, bad)
  {
    var parsed := ParseHeader(header);
    if parsed.Err? {
      return Err(parsed.error);
    }
    var h := parsed.value;
    var index := CumSum(h.sizes);
    var capacity := CheckCapacity(|rows|, h.sizes);
    if capacity.Err? {
      return Err(capacity.error);
    }
    AccumulatesIsIndex(index, h.sizes);
    var ownerArray := FillOwners(index);
    var costArray, names, err := BuildCosts(rows, index, bad);
    if err.Some? {
      return Err(err.value);
    }
    var owners := ownerArray[..];
    var total := Last(index);
    var costs := seq(|rows|, i requires 0 <= i < |rows| reads costArray =>
      seq(total, s requires 0 <= s < total reads costArray => costArray[i, s]));
    forall i, s | 0 <= i < |rows| && 0 <= s < total
      ensures costs[i][s] == PrefCost(rows[i], owners[s], bad)
    {
      var g := owners[s];
      assert index[g] <= s < index[g + 1];
    }
    r := Ok(Problem(h.corner, h.names, h.sizes, index, owners, names, costs));
  }

  /** The header of the two-group example parses into groups `A` and `B`
      of size 1 each. */
  lemma TwoGroupHeader()
    ensures ParseHeader(["G", "A=1", "B=1"]) == Ok(Header("G", ["A", "B"], [1, 1]))
  {
    var h := FormatHeader("G", ["A", "B"], [1, 1]);
    assert ShowNat(1) == "1";
    assert h[1] == "A=1" && h[2] == "B=1";
    assert h == ["G", "A=1", "B=1"];
    ParseFormatHeader("G", ["A", "B"], [1, 1]);
  }

  /** With sizes 1 and 1, the index is `[0, 1, 2]` and slot `s` belongs to
      group `s`. */
  lemma TwoGroupSlots(index: seq<nat>, owners: seq<nat>)
    requires Accumulates(index, [1, 1]) && OwnsSlots(owners, index)
    ensures index == [0, 1, 2] && owners == [0, 1]
  {
    var sizes: seq<nat> := [1, 1];
    assert index[1] == index[0] + sizes[0];
    assert index[2] == index[1] + sizes[1];
  }

  /** The two participant rows state the costs of the matrix
      `[[0, 9], [5, 1]]`. */
  lemma TwoGroupCosts()
    ensures PrefCost(["P1", "0", "9"], 0, 255) == 0 && PrefCost(["P1", "0", "9"], 1, 255) == 9
    ensures PrefCost(["P2", "5", "1"], 0, 255) == 5 && PrefCost(["P2", "5", "1"], 1, 255) == 1
  {
    assert ["0"][..0] == [] && ["9"][..0] == [] && ["5"][..0] == [] && ["1"][..0] == [];
  }

  /** The two-group example end to end: for groups `A=1` and `B=1` and
      participants `P1` (costs 0 and 9) and `P2` (costs 5 and 1), the run
      builds slots 0 and 1 owned by `A` and `B` and exactly the matrix
      `[[0, 9], [5, 1]]` on which the solver picks the diagonal. */
  lemma TwoGroupExample(p: Problem)
    requires Built(p, ["G", "A=1", "B=1"], [["P1", "0", "9"], ["P2", "5", "1"]], 255)
    ensures p.names == ["P1", "P2"] && p.index == [0, 1, 2] && p.owners == [0, 1]
    ensures p.costs == [[0, 9], [5, 1]]
  {
    TwoGroupHeader();
    TwoGroupSlots(p.index, p.owners);
    TwoGroupCosts();
    assert p.costs[0] == [0, 9];
    assert p.costs[1] == [5, 1];
  }

  /** The result file: its header row and one row per participant. */
  datatype Output = Output(header: seq<string>, rows: seq<seq<string>>)

  /** The result file for matching `cols` (participant `r` gets slot
      `cols[r]`): the header row rewritten with the number of participants
      each group received, then one row per participant. Reading the header
      back gives the original names with those counts as sizes, and reading
      each row back gives the participant's name, group and realised cost. */
  function Decode(p: Problem, cols: seq<nat>): (out: Output)
    requires WellFormed(p) && IsMatching(cols, |p.names|, |p.owners|)
    ensures ParseHeader(out.header) == Ok(Header(p.corner, p.groupNames, Counts(p.owners, cols, |p.sizes|)))
    ensures |out.rows| == |p.names|
    ensures forall r :: 0 <= r < |p.names| ==>
      ReadRow(out.rows[r]) == Some(Placement(p.names[r], p.owners[cols[r]], p.costs[r][cols[r]]))
  {
    Output(ResultHeader(p.corner, p.groupNames, Counts(p.owners, cols, |p.sizes|)),
           ResultRows(p.names, p.owners, p.costs, cols))
  }

  /** End to end, for participant `r`: the result row names them, puts them
      in a group that exists, and shows the number they wrote for that group,
      or the bad-assignment cost when they left it blank or their row stops
      before it. */
  lemma PreferenceHonored(p: Problem, header: seq<string>, rows: seq<seq<string>>, bad: nat,
                          cols: seq<nat>, r: nat)
    requires Built(p, header, rows, bad) && IsMatching(cols, |rows|, |p.owners|)
    requires r < |rows|
    ensures p.owners[cols[r]] < |p.sizes|
    ensures var g := p.owners[cols[r]];
      ReadRow(Decode(p, cols).rows[r]) == Some(Placement(rows[r][0], g, PrefCost(rows[r], g, bad)))
  {
  }

  /** The rewritten header balances: the counts add up to the number of
      participants, and no group receives more than its size. */
  lemma CountsBalance(p: Problem, cols: seq<nat>)
    requires WellFormed(p) && IsMatching(cols, |p.names|, |p.owners|)
    ensures var counts := Counts(p.owners, cols, |p.sizes|);
      Sum(counts) == |p.names| &&
      forall g :: 0 <= g < |p.sizes| ==> counts[g] <= p.sizes[g]
  {
    CountsSum(p.owners, cols, |p.sizes|);
    forall g | 0 <= g < |p.sizes|
      ensures AssignedCount(p.owners, cols, g) <= p.sizes[g]
    {
      CountWithinSize(p.owners, p.index, p.sizes, cols, g);
    }
  }

  /** A participant's row costs the same in every slot of one group, so the
      solver cannot tell two slots of a group apart. */
  lemma SameGroupSameCost(p: Problem, header: seq<string>, rows: seq<seq<string>>, bad: nat,
                          i: nat, s: nat, t: nat)
    requires Built(p, header, rows, bad)
    requires i < |rows| && s < |p.owners| && t < |p.owners| && p.owners[s] == p.owners[t]
    ensures p.costs[i][s] == p.costs[i][t]
  {
  }
}
