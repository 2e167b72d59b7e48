# assign2groups in Dafny

`assign2groups` reads a CSV file and assigns participants to groups of fixed
size so that the participants' stated preferences are honoured as far as
possible. The first row is a header: a corner cell, then one
`<group name>=<group size>` token per group. Every other row is a
participant: a name, then one preference cell per group, where a number is
the cost of that group for the participant (lower is better) and a blank
cell means "no preference". The program works in these steps:

- It validates the header.
- It computes the running totals of the group sizes (`group_index`) and
  rejects the input when there are more participants than slots.
- It builds a slot-to-group map with one entry per slot.
- It builds a participants x slots cost matrix. Every cell starts at the
  bad-assignment cost (255 by default). Each non-blank preference then
  overwrites all slots of its group.
- It hands the matrix to SciPy's `linear_sum_assignment`.
- It writes a result file. The header holds the number of participants
  each group received. Each participant's row places their realised cost
  in the column of the group they got.

The model follows those steps, one module per step:

| module | file | what it holds |
|---|---|---|
| `Text` | text.dfy | `str.split`, ASCII digit strings, `int()` and `str()` on naturals |
| `Failures` | failures.dfy | every way the run can stop, as a datatype; `Result` and `Option` |
| `GroupHeader` | header.dfy | header validation and parsing (`ParseHeader`), and writing a header back (`FormatHeader`) |
| `Capacity` | capacity.dfy | `CumSum` (`numpy.cumsum([0] + sizes)`) and the capacity check |
| `Slots` | slots.dfy | the slot-to-group map, filled range by range into an `array` |
| `CostMatrix` | costs.dfy | the cost matrix, filled slice by slice into an `array2`, and the failures the fill loop can raise |
| `Matching` | matching.dfy | the contract the solver is relied on to meet |
| `Decoder` | decoder.dfy | per-group counts, and the result header and rows |
| `Pipeline` | pipeline.dfy | the whole run: `Prepare` (everything before the solver) and `Decode` (everything after it) |

Each imperative loop of the program is a method over an array, proved
against a specification function:

- `FillOwners` and `FillRange` fill the slot map.
- `BuildCosts`, `FillParticipant` and `FillRow` fill the cost matrix.

The failures the program raises itself (`ValueError` for a missing `=`, a
bad size and too many participants), the two Python exceptions of the header
step (the `pop` of the corner cell from an empty first row, and the failed
unpacking of the split tokens) and the two Python exceptions its row loop
runs into are error values. The failures numpy would raise, or
the values it would wrap around, when it stores a preference cell or the
bad-assignment cost in a `uint8` cell (text that is not digits, a value
above 255) are not: the precondition `CostsFit` of `BuildCosts`,
`FillParticipant` (as `RowFits`) and `Prepare` excludes them. It constrains
only the cells the program converts, that is, the cells within the groups
of the rows it reaches. The error values are:

- an empty first row, with no corner cell to pop (`EmptyHeader`);
- a header token without `=`;
- a size that is not a non-empty digit string;
- a list of split tokens that cannot be unpacked into names and sizes;
- more participants than slots;
- a participant row with no name cell;
- a non-blank preference past the last group.

The model reproduces two behaviours of the header parser exactly as the
code has them:

- The size of a group is the text between the first and the second `=`.
  A token `A=1=2` next to a well-formed token is therefore accepted as
  group `A` of size 1 (`SecondSeparatorIgnored`).
- The split tokens are transposed before unpacking. A header in which no
  token has exactly one `=` fails at the unpacking, and so does a header
  with no groups (`UnpackRejected`, `ExtraSeparatorAlone`).

## Model

Specification functions that only compute have no row of their own; the
rows of the members whose contracts speak about them cover them:
`Text.ParseNat` by `Text.ParseShow` and `GroupHeader.ParseHeader`,
`Text.IsDigits` by `GroupHeader.WrongSizeRejected`, `GroupHeader.Unpackable`
by `GroupHeader.UnpackRejected`, `Pipeline.Check` by `Pipeline.Prepare` and
`Pipeline.AcceptedInput`, `Decoder.Counts` by `Decoder.CountsSum`,
`Pipeline.CountsBalance` and `Pipeline.Decode`, and `Decoder.ResultRow` by
`Decoder.ReadResultRow` and `Decoder.ResultRows`.

| member | source | states |
|---|---|---|
| `Text.Split` | assign2groups/__init__.py:27 | `str.split`: there is at least one part, no part contains the separator, and there are two or more parts exactly when the separator occurs |
| `Text.JoinSplit` | assign2groups/__init__.py:27 | splitting loses nothing: joining the parts with the separator gives back the text |
| `Text.SplitWithoutSeparator` | assign2groups/__init__.py:27 | text without the separator splits into itself alone |
| `Text.SplitFirst` | assign2groups/__init__.py:27 | the text before the first separator is the first part, and the rest is split on its own |
| `Text.SplitOnce` | assign2groups/__init__.py:27 | a text with exactly one separator splits into the two sides around it |
| `Text.ShowNat` | assign2groups/__init__.py:76-78 | `str(n)` is a non-empty digit string, one digit long exactly when `n < 10` |
| `Text.ParseShow` | assign2groups/__init__.py:37 | `int(str(n)) == n`: reading back a written number gives the number |
| `GroupHeader.ParseHeader` | assign2groups/__init__.py:20-37 | the header fails only with one of its own four failures, and fails as empty exactly when the row is empty; on success the corner is the first cell, there is at least one group, and each group's name is its token's text before the first `=`, holds no `=`, and its size is the value of the digit string that follows |
| `GroupHeader.MissingSeparatorRejected` | assign2groups/__init__.py:21-25 | the run fails with a missing-size error exactly when some token lacks `=`, and the error lists exactly the tokens that lack it |
| `GroupHeader.FilterAppend` | assign2groups/__init__.py:21-32 | the kept tokens of a list are those of its first part followed by those of the rest, so both error lists keep the header's order and its repetitions |
| `GroupHeader.UnpackRejected` | assign2groups/__init__.py:27 | when every token has `=`, unpacking fails exactly when no token has a single `=` |
| `GroupHeader.WrongSizeRejected` | assign2groups/__init__.py:28-33 | after the earlier checks pass, the run fails with a size-format error exactly when some size part is not a non-empty digit string, and the error lists exactly those tokens; otherwise parsing succeeds |
| `GroupHeader.EmptySizeRejected` | assign2groups/__init__.py:28-33 | `A=` has an empty size and is rejected |
| `GroupHeader.TokenStartsWithNameAndSize` | assign2groups/__init__.py:27 | an accepted token begins with its name, `=` and its size text |
| `GroupHeader.FormatTokenSplits` | assign2groups/__init__.py:76 | a written token `<name>=<size>` splits back into its name and its size text |
| `GroupHeader.ParseFormatHeader` | assign2groups/__init__.py:76 | parsing inverts writing: a header written from names without `=` and any sizes is accepted and yields those names and sizes |
| `GroupHeader.SecondSeparatorIgnored` | assign2groups/__init__.py:27-37 | next to a well-formed token, `<name>=<size>=<extra>` is accepted as that group and size, and the extra part is dropped |
| `GroupHeader.ExtraSeparatorAlone` | assign2groups/__init__.py:27 | a lone `A=1=2` makes the unpacking fail |
| `Capacity.CumSum` | assign2groups/__init__.py:39 | the index has one more entry than there are groups; it starts at 0, and each step adds that group's size |
| `Capacity.PrefixSum` | assign2groups/__init__.py:39 | every entry of the index is the sum of the sizes before it |
| `Capacity.TotalSlots` | assign2groups/__init__.py:39-41 | the last entry of the index is the sum of all sizes |
| `Capacity.AccumulatesIsIndex` | assign2groups/__init__.py:39 | the index starts at 0 and never decreases |
| `Capacity.Ascending` | assign2groups/__init__.py:39 | one entry of the index is at most any later entry |
| `Capacity.CheckCapacity` | assign2groups/__init__.py:41-45 | the run fails exactly when there are more participant rows than the last index entry, and reports the count, the sizes and their sum; otherwise the total is at least the count |
| `Capacity.SingleSlotTwoParticipants` | assign2groups/__init__.py:41-45 | two participants do not fit in one group of size 1 |
| `Slots.FillRange` | assign2groups/__init__.py:49 | the slice assignment sets exactly the slots in `[lo, hi)` to the group number and leaves the others as they were |
| `Slots.FillOwners` | assign2groups/__init__.py:47-49 | the map has one entry per slot, and slot `s` maps to group `g` exactly when `index[g] <= s < index[g + 1]` |
| `Slots.OwnerIff` | assign2groups/__init__.py:47-49 | the ranges do not overlap, so a slot's group is the only group whose range holds it |
| `Slots.OwnersAscend` | assign2groups/__init__.py:47-49 | the map never decreases along the slots |
| `Slots.OwnedAmongFirst` | assign2groups/__init__.py:47-49 | of the first `n` slots, group `g` owns as many as its range shares with `[0, n)` |
| `Slots.SlotsPerGroup` | assign2groups/__init__.py:47-49 | each group owns exactly as many slots as its size |
| `CostMatrix.CellsCheck` | assign2groups/__init__.py:57-59 | a row's preferences are accepted exactly when every cell past the last group is blank; otherwise the failure names the first non-blank such cell |
| `CostMatrix.RowCheck` | assign2groups/__init__.py:56-59 | a row is accepted exactly when it has a name cell and nothing past the last group |
| `CostMatrix.RowsCheck` | assign2groups/__init__.py:55-59 | all rows are accepted exactly when each one is; otherwise the failure is that of the first failing row, with every row before it accepted |
| `CostMatrix.FirstFailureSticks` | assign2groups/__init__.py:55-59 | rows after the first failing one do not change the reported failure |
| `CostMatrix.FillRow` | assign2groups/__init__.py:59 | `costs[i, lo:hi] = v` sets exactly those cells of row `i` and leaves every other cell as it was |
| `CostMatrix.FillParticipant` | assign2groups/__init__.py:57-59 | the inner loop fails with the row's own failure; otherwise every slot of group `g` holds the participant's number for `g`, or the bad cost when the cell is blank or missing; other rows are untouched |
| `CostMatrix.BuildCosts` | assign2groups/__init__.py:53-59 | the matrix is participants x slots; the run fails with the failure of the first bad row; otherwise each name is the row's first cell, and each slot of group `g` holds the row's number for `g` or the bad cost |
| `Matching.UsedCount` | assign2groups/__init__.py:62 | a matching with no slot given twice uses as many slots as it has participants |
| `Matching.MatchingExistsIff` | assign2groups/__init__.py:41-62 | a matching of every participant exists exactly when there are at least as many slots as participants, which is the condition the capacity check enforces |
| `Matching.DiagonalOptimal` | assign2groups/__init__.py:62 | the solver's contract can be met: on `[[0, 9], [5, 1]]` the diagonal matching, of cost 1, is optimal, and the crossed one costs 14 |
| `Decoder.AssignedCount` | assign2groups/__init__.py:72-76 | a group's count is at most the number of participants, and it is 0 exactly when no participant landed in that group |
| `Decoder.CountsSum` | assign2groups/__init__.py:72 | the counts of all groups add up to the number of matched participants |
| `Decoder.AssignedSlotsCount` | assign2groups/__init__.py:72 | with no slot given twice, a group's count equals the number of its slots in use |
| `Decoder.AssignedWithinRange` | assign2groups/__init__.py:72 | the slots in use by group `g` lie within its range |
| `Decoder.CountWithinSize` | assign2groups/__init__.py:72 | no group receives more participants than its size |
| `Decoder.ReadResultRow` | assign2groups/__init__.py:78 | reading a result row back gives the name, the group (the number of blank cells) and the cost it was written from |
| `Decoder.ResultHeader` | assign2groups/__init__.py:76 | the result header, read as an input header, yields the original group names with the counts as sizes |
| `Decoder.ResultRows` | assign2groups/__init__.py:77-78 | there is one result row per participant, and it reads back as their name, the group of their slot and that slot's cost |
| `Pipeline.AcceptedInput` | assign2groups/__init__.py:20-59 | an input passes every check exactly when its header parses, the sizes add up to at least the number of rows, and every row has a name and nothing past the last group |
| `Pipeline.Prepare` | assign2groups/__init__.py:20-59 | the run fails exactly when `Check` names a failure, and with that failure; otherwise it returns the parsed header, the index, the map, the names and a matrix whose cell `[i][s]` is row `i`'s cost for the group owning `s` |
| `Pipeline.TwoGroupHeader` | assign2groups/__init__.py:20-37 | the example header `G, A=1, B=1` parses into groups `A` and `B` of size 1 |
| `Pipeline.TwoGroupSlots` | assign2groups/__init__.py:39-49 | with sizes 1 and 1 the index is `[0, 1, 2]` and the slot map is `[0, 1]` |
| `Pipeline.TwoGroupCosts` | assign2groups/__init__.py:57-59 | the example rows `P1, 0, 9` and `P2, 5, 1` state the costs 0, 9 and 5, 1 |
| `Pipeline.TwoGroupExample` | assign2groups/__init__.py:20-59 | for groups `A=1`, `B=1` and participants `P1` (0, 9) and `P2` (5, 1), the run builds index `[0, 1, 2]`, slot map `[0, 1]` and exactly the matrix `[[0, 9], [5, 1]]` of `Matching.DiagonalOptimal` |
| `Pipeline.Decode` | assign2groups/__init__.py:72-78 | the result header reads back as the group names with the assigned counts as sizes; each result row reads back as the participant's name, group and realised cost |
| `Pipeline.PreferenceHonored` | assign2groups/__init__.py:53-78 | end to end, a participant's result row names them and places them in an existing group; its cost is the number they wrote for that group, or the bad cost when they left it blank or their row stops before it |
| `Pipeline.CountsBalance` | assign2groups/__init__.py:72-76 | the counts in the result header add up to the number of participants, and none exceeds its group's size |
| `Pipeline.SameGroupSameCost` | assign2groups/__init__.py:57-59 | in each participant's row, all slots of one group cost the same |

## Left out

- Opening and reading the CSV file, writing the result file and building the output path are not modelled. These are file I/O. The model takes the header and the participant rows as sequences of strings and returns the result rows. The file-existence check and the `utf-8-sig` decoding go with them.
- CSV quoting and escaping are not modelled. The model starts from cells that are already split.
- Logging, including the debug lines and the average-cost line, is not modelled. The average is floating point and only observational.
- `main` and argument parsing are command-line glue and are not modelled.
- `linear_sum_assignment` itself is not modelled. It is a foreign solver. The model states only its contract:
  - `IsMatching`: every participant gets a slot, and no slot is given twice.
  - `IsOptimal`: no other matching is cheaper.
- The model proves that a matching exists exactly when the capacity check passes. It does not prove that an optimal matching exists.
- `Pipeline.Decode`: takes `row_ind` to be the participants in order, `0 .. n-1`. This is what the solver returns when the matrix has no more rows than columns, but the contract does not include that fact.
- `Pipeline.Decode`: requires only a matching, not an optimal one. The decoding does not depend on optimality.
- `CostMatrix.BuildCosts`: requires (`CostsFit`) the bad cost to be at most 255 and, in every row the builder reaches (every row before which no row failed), every non-blank preference cell inside the group range to be an ASCII digit string with value at most 255.
  - This precondition replaces numpy's conversion of a string into a `uint8` cell.
  - It also replaces numpy's behaviour on other text, such as signs, spaces and values above 255 (an error or a wrap-around, depending on the numpy version).
  - Costs are modelled as natural numbers.
- `CostMatrix.FillParticipant`: carries the same precondition (`RowFits`) on the cells of its own row.
- `Pipeline.Prepare`: carries the precondition of `CostMatrix.BuildCosts` only for inputs whose header parses and whose capacity check passes, the inputs for which the program reaches the matrix.
- `Text.IsDigits`: treats only the ASCII digits as digits. Python's `str.isdigit` also accepts other Unicode digit characters.
- The integer widths of `group_index` (int64) and of the slot map are not modelled. All integers are unbounded.
- `numpy.int`, which recent numpy versions removed, is treated as a plain integer type.
- Row failures are modelled as the two Python exceptions they raise:
  - `pop` on an empty row is `EmptyRow`.
  - The out-of-range `group_index[j]` or `group_index[j + 1]` (the first when the preference lies beyond the column right after the last group) for a preference past the last group is `PreferenceBeyondGroups`.
  
  Both are reported as failures and are not distinguished further.
- The text of the error messages is not modelled. Each failure carries the data its message shows.
