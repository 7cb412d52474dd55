# Diagonal Sudoku solver — a Dafny model

This project models `solution.py`, a solver for diagonal Sudoku: the usual
9×9 puzzle, where the two main diagonals must also hold every digit once. The
solver keeps a candidate string for each of the 81 boxes `A1`…`I9`. It applies
three constraint-propagation rules until they stall:

- `eliminate`
- `only_choice`
- `naked_twins`

When the rules stall, a depth-first `search` branches on the unsolved box with
the fewest candidates. Every assignment that changes a box to a single digit
is recorded in the global `assignments` log.

Modules, in dependency order:

- Candidates (`candidates.dfy`): candidate strings, `str.replace` of a
  pattern by `''`, and counting facts used by the proofs.
- Topology (`topology.dfy`): the board's topology:
  - rows, columns, `cross`, box names;
  - the 29 units (9 rows, 9 columns, 9 squares and 2 diagonals);
  - `units` and `peers`.
- Board (`board.dfy`): the board and the log (`State`), `assign_value`,
  `grid_values`, and the meaning of "solved". A board is a
  `seq<string>` of length 81 in row-major key order, and box `b` is the key
  `Name(b)`.
- Elimination (`elimination.dfy`): `eliminate`.
- OnlyChoice (`onlychoice.dfy`): `only_choice`.
- NakedTwins (`nakedtwins.dfy`): `naked_twins`.
- Propagation (`propagation.dfy`): `reduce_puzzle`.
- Search (`search.dfy`): `search` and `solve`.

Each rule is a pure function on `State(values, log)`. The source mutates a
dictionary in place and appends to a global list. The model threads both
through the functions instead. `search` copies the board for each branch and
shares the log, and the model does the same.

Three outcomes of the source are modelled as distinct values:

- `False` from a contradiction is `Failed`.
- The `None` that `search` returns when every branch fails is `Exhausted`.
- The failing `assert` of `grid_values` is `None`.

Three details of the code's behaviour that the model keeps:

- **All branches fail.** When every branch fails, `search` falls off the end
  of its loop and returns `None`, not `False`. `Solve` keeps the two apart.
- **When the empty-box check runs.** `reduce_puzzle` checks for an empty box
  only after all three rules of a pass have run, and `ReducePuzzle` does the
  same.
- **Malformed grids.** `grid_values` rejects a grid that does not yield 81
  cells with a bare `assert`. The model returns `None`.

## Model

| member | source | states |
|---|---|---|
| Topology.CrossAt | solution.py:19-21 | `cross(a, b)[i*len(b)+j]` is `a[i]+b[j]`: the product is listed in row-major order. |
| Topology.BoxesAreNames | solution.py:19-29 | `boxes = cross(rows, cols)` has 81 entries, and entry `b` is the name of box `b` ("A1" … "I9" in row-major order). |
| Topology.NameOrder | solution.py:167 | Python's string order on box names agrees with the box index. `b` precedes `c` exactly when `b < c`, and the names are equal exactly when the boxes are. This is the `min` tie-break. |
| Topology.RowUnitIsSource | solution.py:30 | Row unit `r` is, name by name, `cross(rows[r], cols)`. |
| Topology.ColumnUnitIsSource | solution.py:31 | Column unit `c` is `cross(rows, cols[c])`. |
| Topology.SquareUnitIsSource | solution.py:32 | Square unit `(i, j)` is the cross of the `i`-th row triple and the `j`-th column triple. |
| Topology.DiagonalUnitsAreSource | solution.py:34-35 | Unit 27 holds `rows[k]+cols[k]`, and unit 28 holds `rows[k]+cols[::-1][k]`. |
| Topology.UnitList | solution.py:30-38 | `unitlist` has 29 units of 9 boxes. By name, entry `r` is `cross(rows[r], cols)` and entry `9+c` is `cross(rows, cols[c])`. Entry `18+3i+j` is the cross of the `i`-th row triple with the `j`-th column triple. Entries 27 and 28 pair `rows[k]` with `cols[k]` and with `cols[::-1][k]`. |
| Topology.UnitDistinct | solution.py:30-35 | No unit lists a box twice. |
| Topology.UnitMembership | solution.py:41 | A box is listed in a unit exactly when the arithmetic membership test `InUnit` holds. |
| Topology.UnitsOf | solution.py:41 | `units[s]` holds exactly the units that contain `s`. |
| Topology.Peers | solution.py:42 | `peers[s]` never contains `s`. It holds exactly the boxes other than `s` that share a unit with it. |
| Topology.PeersSymmetric | solution.py:41-42 | `b` is a peer of `a` exactly when `a` is a peer of `b`. |
| Topology.UnitMatesArePeers | solution.py:41-42 | Any two distinct boxes of one unit are peers of each other. |
| Candidates.Replace | solution.py:84 | `s.replace(p, '')` keeps only characters of `s`. An empty pattern changes nothing. For a one-character pattern, a character survives exactly when it was present and differs from the pattern. |
| Board.AssignValue | solution.py:45-58 | `assign_value` sets the box and leaves every other box alone. Assigning the value a box already holds returns the state unchanged. The log grows only by appending. It grows by exactly one entry, a snapshot of the new board, when the value changes to one of length 1. |
| Board.AssignCandidateRefines | solution.py:171 | Fixing a box to one of its own candidates only narrows the board. |
| Board.GridValues | solution.py:89-107 | `grid_values` succeeds exactly when the grid yields 81 cells. Every box is then a given digit or `'123456789'`. |
| Board.GridValuesRoundTrip | solution.py:99-107 | Writing a board of givens and blanks as text and parsing it returns the same board. |
| Board.GridValuesDropsOthers | solution.py:101-105 | Characters other than digits and `.` are ignored. |
| Board.GridValuesDigits | solution.py:99-106 | A parsed board holds only the characters `1`–`9`. |
| Board.RefinesKeepsSolved | solution.py:147-152 | When a narrower board has no empty box, every box solved before keeps its digit, and the solved count cannot drop. |
| Board.SolvedIffValid | solution_test_from_file.py:37-42 | On a board of single digits, the harness's `solved` check holds exactly when no two peers share a digit and all digits are `1`–`9`. |
| Elimination.Eliminate | solution.py:126-132 | `eliminate` only deletes candidates and only appends to the log. |
| Elimination.EliminatePeersChars | solution.py:130-131 | One turn deletes the turn's digit from exactly the peers of the box, and changes nothing else. |
| Elimination.TurnDigit | solution.py:127-129 | On any narrower board, a box solved at entry still holds its digit or holds nothing. So the `digit` read at its turn is that digit or `''`. |
| Elimination.EliminateClearsPeers | solution.py:126-132 | After `eliminate`, the digit of a box solved at entry is absent from all its peers, unless that box was itself emptied. |
| Elimination.EliminateKeeps | solution.py:126-132 | A candidate survives `eliminate` unless a peer was solved to exactly that digit at entry. |
| Elimination.EliminateSound | solution.py:126-132 | `eliminate` never deletes the digit a valid solution places in a box. |
| OnlyChoice.PlacesSingle | solution.py:138-139 | `dplaces == [unit[k]]` exactly when box `k` is the only box of the unit holding the digit. |
| OnlyChoice.OnlyChoice | solution.py:135-141 | `only_choice` only appends to the log. |
| OnlyChoice.OnlyChoiceChosen | solution.py:135-141 | Every box that `only_choice` changes becomes one of its own former candidates. So the board only narrows. |
| OnlyChoice.OnlyChoiceIsolates | solution.py:135-141 | Every box that `only_choice` changes is, in the result, solved to a digit that no other box of some unit holds. |
| OnlyChoice.HiddenSingleForced | solution.py:138-140 | A digit with exactly one place in a unit is the digit every valid solution puts there. |
| OnlyChoice.OnlyChoiceSound | solution.py:135-141 | `only_choice` never removes the digit of a valid solution. |
| NakedTwins.NakedTwins | solution.py:61-86 | `naked_twins` only deletes candidates and only appends to the log. |
| NakedTwins.StripDigitsChars | solution.py:83-84 | The digit loop deletes exactly the twin's digits from the box and touches no other box. |
| NakedTwins.NakedTwinsKeepsSolved | solution.py:82 | A box with at most one candidate is never changed by `naked_twins`. |
| NakedTwins.NakedTwinsClears | solution.py:71-84 | For a twin pair found at entry, every other box of a unit both twins share ends up solved or sharing no digit with either twin. |
| NakedTwins.TwinDigits | solution.py:71-72 | In a valid solution consistent with the board, each digit of a twin pair is the solution's digit at one of the two twins. |
| NakedTwins.NakedTwinsSound | solution.py:61-86 | `naked_twins` never removes the digit of a valid solution. |
| Propagation.Pass | solution.py:148-150 | One pass runs `eliminate`, `only_choice` and `naked_twins`. It only narrows the board and only appends to the log. |
| Propagation.PassProgress | solution.py:147-152 | When a pass leaves no box empty, the solved count does not drop. This is why the `while not stalled` loop terminates. |
| Propagation.ReducePuzzle | solution.py:144-155 | `reduce_puzzle` terminates and narrows the board. It reports a contradiction exactly when its final board has an empty box. |
| Propagation.ReduceStalls | solution.py:146-152 | A non-contradictory result is the output of a pass that solved no new box. |
| Propagation.ReduceSound | solution.py:144-155 | If a valid solution fits the board, `reduce_puzzle` does not fail and keeps that solution possible. |
| Propagation.PassOnSolved | solution.py:148-154 | A pass over a fully solved board of digits that leaves no box empty changes nothing, and the board is a valid solution. |
| Propagation.ReduceSolvedValid | solution.py:144-155 | On a board of digits, a fully solved board returned by `reduce_puzzle` is a valid solution. |
| Search.MinRemaining | solution.py:167 | The branch box is unsolved. Every other unsolved box has more candidates, or as many and a larger name. |
| Search.Search | solution.py:158-174 | `search` returns `False` exactly when `reduce_puzzle` does. A returned board is fully solved. The log only grows. |
| Search.Branches | solution.py:169-174 | The branch loop never yields `False`. A returned board is fully solved. The log only grows. |
| Search.SearchSolvedRefines | solution.py:158-174 | A board returned by `search` narrows its input. |
| Search.SearchSolvedValid | solution.py:158-174 | A board returned by `search` on a board of digits is a valid solution. It is consistent with the input and keeps every solved box of the input. |
| Search.SearchComplete | solution.py:158-174 | If any valid solution fits the board, `search` returns a board. |
| Search.BranchesComplete | solution.py:169-174 | If the solution's digit for the branch box is still to be tried, the loop returns a board. |
| Search.SolutionBranch | solution.py:169-173 | The branch that fixes the branch box, on a copy, to the digit a fitting valid solution puts there returns a board. |
| Search.Solve | solution.py:177-188 | `solve` yields an answer exactly when the grid has 81 cells. |
| Search.SolveCorrect | solution.py:177-188 | On a well-formed grid, `solve` returns a board exactly when some valid solution agrees with the givens. That board passes the harness's `solved` check and keeps every given. |

## Left out

- display and the `__main__` block (printing and the `visualize` import) are I/O. They are not modelled.
- `solution_test_from_file.py` is a timing harness that reads files. Only its `solved` predicate is modelled, as `Board.IsSolved`.
- Board.IsSolved compares unit values with the nine digit strings. The harness's `solved` refers to `solution.digits`. `solution.py` defines `digits` only as a local of `grid_values`, so the harness's check as written would raise `AttributeError`.
- Topology.Peers: `peers[s]` is a Python set whose iteration order is unspecified. `eliminate` and `naked_twins` visit peers in row-major order. The logged snapshots depend on this order, but the final board and every property above do not.
- Elimination.EliminateClearsPeers is weaker than "the digit is gone from every peer". When two solved peers share a digit, the first one's turn empties the other. The emptied box then deletes nothing, and `reduce_puzzle` reports the contradiction.
- NakedTwins.NakedTwinsClears is stated on the twin's value at the end, not at entry. An earlier pair can narrow a twin (to a single digit or to empty) before that twin's own turn comes. For the same reason, the model does not claim that twins stay unchanged through the whole call. It proves only that a pair's own stripping never touches either twin (`NakedTwins.StripUnitKeepsTwin`, for both `b1` and `b2`), and that solved boxes are never touched.
- The log is modelled as an append-only sequence of board snapshots. That it only grows is proved, and so is the content of each appended snapshot for one assignment (`Board.AssignValue`). Which snapshots a whole rule appends is not characterised.
- CPython's recursion-depth limit and the dictionary's memory are not modelled. `search` nests at most 81 levels deep, since each level fixes one more unsolved box and a later contradiction ends that branch, but this bound is not proved here. What is proved is that `search` terminates, because the total number of candidates drops at each branch.
