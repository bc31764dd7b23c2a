# SudokuSolver in Dafny

This project models `SudokuSolver.py` from cablome/SudokuSolver. That file is a
constraint-propagation Sudoku solver that never guesses. It has three classes:

- `CellNeighbors` computes the row, column and box neighbours of a cell of the
  9x9 board, numbered 0..80 in row-major order. Its `aggregate()` gives the 20
  peers of the cell.
- `GridCell` holds a cell's coordinates, its `PencilMarks` (candidate digits)
  and its `solved` flag.
- `Puzzle` holds the 81 cells. Its constructor places the clues. `solve`
  repeats these rules until they stop making progress:
  - hidden and naked singles (`process_singles`);
  - the subset rule for pairs and triples (`reduce_r`), which ends with
    pointing pairs (`process_pointing_pairs`).

The modules follow that structure:

| module | file | contents |
|---|---|---|
| `Lists` | lists.dfy | `range(...)` and list comprehensions as `Range` and `Filter` |
| `Neighbors` | neighbors.dfy | `CellNeighbors`: the row, column, box and `aggregate()` lists, `grid_index`, and the coordinates of `GridCell` |
| `Cells` | cells.dfy | one cell's marks: the initial `[1..9]`, `remove_mark` (which uses `list.remove`), `get_value` |
| `Board` | board.dfy | the whole board as values: the 81 mark lists and 81 solved flags; `working_set`, new singles, placing a value, the seeded board, `info()`; the invariants the solver keeps |
| `Subsets` | subsets.dfy | one tuple step of `reduce_r` and one pair step of `process_pointing_pairs`, as functions on the marks |
| `Solutions` | solutions.dfy | soundness: every rule keeps every completed grid the marks allow |
| `Loops` | loops.dfy | the loops of `process_singles`, `reduce_r` and `process_pointing_pairs`, and one turn of `solve`, as folds of their steps in the order the source visits cells, pairs and triples |
| `Sudoku` | puzzle.dfy | class `Puzzle`, with the fields `marks: array<seq<int>>` and `solved: array<bool>` and the imperative loops of `__init__`, `process_singles`, `reduce_r`, `process_pointing_pairs` and `solve` |

Each `Puzzle` method that changes the board is proved to leave the board
that a function computes from the old one. For a single step that is
`Placed`, `Pruned`, `Reduced` or `Pointed`. For a loop it is the fold of its
step over the cells, pairs or triples, in the order the loop visits them
(`HiddenCollapsed`, `NakedSolved`, `PairsFrom`, `TriplesFrom`, `ReducedAll`,
`PointedFrom`, and `TurnOf` for one turn of `solve`). `Solve` is the
exception: it runs turns until one ends, and is specified by what its
outcome promises. The lemmas state what the rules promise:

- marks only shrink;
- solved cells stay solved;
- a consistent board stays consistent;
- no rule loses a completed grid that the marks allow.

From these, `Solve` proves three things:

- the `while` loop terminates;
- a returned grid is a completed Sudoku;
- it is the only completed grid that the starting marks allow.

When a cell loses its last mark, no completed grid was possible.

`solve` has three outcomes, modelled by the datatype `Outcome`:

- `Solution(values)`: the list of 81 values;
- `Stuck`: the source returns `None`;
- `Contradiction`: the source raises `IndexError` at `i.PencilMarks[0]` on line
  244 after a naked single has lost its only mark.

Consistent with the source, a board that starts with every cell solved gives
`Stuck`: the first pass finds the unsolved count unchanged at 0.

## Model

| member | source | states |
|---|---|---|
| Lists.Range | SudokuSolver.py:13-17 | `list(range(lo, hi, step))`, built as `[lo]` followed by the range from `lo + step`. It has no contract of its own: `RangeMembers`, `RangeMembers9`, `RangeAscending` and `RangeLength` state what it holds |
| Lists.Filter | SudokuSolver.py:13-19 | A list comprehension keeps exactly the elements of the list that pass its test, and is never longer than the list |
| Lists.RangeMembers | SudokuSolver.py:13-14 | `range(lo, hi)` holds exactly the integers from `lo` to `hi - 1` |
| Lists.RangeMembers9 | SudokuSolver.py:15-16 | `range(index % 9, 81, 9)` holds exactly the indices below 81 that agree with `index` modulo 9 |
| Lists.RangeAscending | SudokuSolver.py:13-17 | A `range` with a positive step is strictly increasing and has no element below `lo` |
| Lists.RangeLength | SudokuSolver.py:13-17 | A `range` has as many elements as steps it takes to reach `hi` |
| Lists.FilterAscending | SudokuSolver.py:13-19 | A comprehension over a strictly increasing list is strictly increasing |
| Lists.Without | SudokuSolver.py:181-183 | The marks of a list that are not in a set, in their order: exactly the elements of the list outside the set, and never more of them than the list has |
| Lists.WithoutAscending | SudokuSolver.py:181-183 | Removing a set of marks keeps a strictly ascending mark list strictly ascending |
| Lists.FirstFound | SudokuSolver.py:230-236 | What the `for ... break` loop stops at, from position `k` on, is an element at some position `i` no earlier than `k` that passes the test, and no element from `k` up to `i` passes it |
| Lists.FirstNone | SudokuSolver.py:229-236 | When that loop runs to its end without a `break`, no element from position `k` on passes the test |
| Neighbors.GridIndex | SudokuSolver.py:21-23 | `grid_index(index)`, `3 * (index // 27) + (index % 9) // 3`. It has no contract of its own: `GridIndexIsBox` proves it equal to the cell's `grid` attribute |
| Neighbors.RowNeighbors | SudokuSolver.py:12-14 | `neighbors.row`, the comprehension over `range(row_start, row_start + 9)`. It has no contract of its own: `RowNeighborsSpec` characterises it |
| Neighbors.ColumnNeighbors | SudokuSolver.py:15-16 | `neighbors.column`, the comprehension over `range(index % 9, 81, 9)`. It has no contract of its own: `ColumnNeighborsSpec` characterises it |
| Neighbors.GridNeighbors | SudokuSolver.py:17-19 | `neighbors.grid`, the comprehension over `range(81)` with the same `grid_index`. It has no contract of its own: `GridNeighborsSpec` characterises it |
| Neighbors.Aggregate | SudokuSolver.py:25-28 | `aggregate()`: the row list, the column list, then the box cells on neither. It has no contract of its own: `AggregateSpec`, `CornerCount` and `AggregateSymmetric` characterise it |
| Neighbors.Coordinates | SudokuSolver.py:41-43 | `divmod` of the index `9 * r + c` gives back row `r` and column `c` |
| Neighbors.GridIndexIsBox | SudokuSolver.py:22-23 | `grid_index(index)` equals the cell's `grid` attribute, `3 * (row // 3) + column // 3` |
| Neighbors.BoxRange | SudokuSolver.py:45 | A cell is in box `b` exactly when its row is in the three rows of band `b / 3` and its column is in the three columns of stack `b % 3` |
| Neighbors.BoxCorner | SudokuSolver.py:45 | Every cell lies in the 3x3 block that starts at its box's corner row and column |
| Neighbors.BoxCellsSpec | SudokuSolver.py:17-19 | The cells of one box are nine, strictly ascending, and exactly the cells with that box number |
| Neighbors.RowNeighborsSpec | SudokuSolver.py:12-14 | `neighbors.row` is strictly ascending, holds 8 cells, and holds exactly the other cells of the row |
| Neighbors.ColumnNeighborsSpec | SudokuSolver.py:15-16 | `neighbors.column` is strictly ascending, holds 8 cells, and holds exactly the other cells of the column |
| Neighbors.GridNeighborsSpec | SudokuSolver.py:17-19 | `neighbors.grid` is strictly ascending, holds all 8 other cells of the box, and no other cell |
| Neighbors.OffLineCount | SudokuSolver.py:49-52 | Exactly 4 cells of a cell's box are on neither its row nor its column |
| Neighbors.CornerCount | SudokuSolver.py:26-28 | The box cells that `aggregate()` appends after the row and column are 4, in ascending order |
| Neighbors.AggregateSpec | SudokuSolver.py:25-28 | `aggregate()` holds 20 cells without repeats, and they are exactly the peers of the cell: different from it, sharing its row, column or box |
| Neighbors.AggregateSymmetric | SudokuSolver.py:25-28 | `q` is in `aggregate()` of `p` exactly when `p` is in `aggregate()` of `q` |
| Neighbors.UnitNeighborsSpec | SudokuSolver.py:10-19 | For each unit kind, the neighbour list that `reduce_r` reads is strictly ascending, has 8 cells, and holds exactly the other cells of that unit |
| Cells.Digits | SudokuSolver.py:48 | `list(range(1, 10))`, the marks every cell starts with. It has no contract of its own: `DigitsSpec` characterises it |
| Cells.GetValue | SudokuSolver.py:67-72 | `get_value()`: the first mark of a solved cell, "X" for an unsolved one, and `None` where `PencilMarks[0]` would raise on an empty list. It has no contract of its own: `Board.ShownValue` proves it never raises on a consistent board |
| Cells.DigitsSpec | SudokuSolver.py:48 | The initial marks are a strictly ascending list of the nine digits 1..9 |
| Cells.RemoveFirst | SudokuSolver.py:76 | `list.remove(v)` takes away one occurrence of `v` and nothing else (as multisets) |
| Cells.RemoveMark | SudokuSolver.py:74-76 | `remove_mark(v)` takes away one `v` when the list holds one, and otherwise leaves the list as it was (as multisets) |
| Cells.RemoveFirstAscending | SudokuSolver.py:76 | On a strictly ascending list, `remove(v)` keeps the list ascending and drops exactly `v` |
| Cells.RemoveMarkSpec | SudokuSolver.py:74-76 | `remove_mark(v)` keeps a mark list ascending within 1..9; it leaves every other mark and no `v`; it shortens the list by one exactly when `v` was present |
| Cells.RemoveMarkIdempotent | SudokuSolver.py:74-76 | Removing the same mark twice is the same as removing it once |
| Cells.WithoutSpec | SudokuSolver.py:181-183 | Removing a set of marks from a cell leaves a mark list with exactly the marks not in the set |
| Cells.RemoveMarkWithout | SudokuSolver.py:181-183 | Removing one more mark after a set of marks gives the list without the enlarged set, so the order in which a set is visited does not matter |
| Board.Unsolved | SudokuSolver.py:110 | `working_set`, the unsolved cells (also at lines 120 and 135). It has no contract of its own: `UnsolvedSpec` characterises it |
| Board.Singles | SudokuSolver.py:250 | `new_singles_set` (also at line 223). It has no contract of its own: `SinglesSpec` characterises it |
| Board.UnsolvedSpec | SudokuSolver.py:110 | `working_set` lists exactly the unsolved cells, in ascending order |
| Board.SinglesSpec | SudokuSolver.py:250 | `new_singles_set` lists exactly the unsolved cells that are down to one mark |
| Board.UnsolvedShrinks | SudokuSolver.py:135-136 | When cells only become solved, the unsolved count does not grow, and it drops when some cell became solved |
| Board.NoneUnsolved | SudokuSolver.py:143 | An unsolved count of 0 means every cell is solved |
| Board.PurgedIsSwept | SudokuSolver.py:92-94 | Removing `v` from every cell of `aggregate()` is removing it from exactly the peers of the cell |
| Board.Placed | SudokuSolver.py:243-248 | Solving a cell with `v`, then removing `v` from each cell of its `aggregate()`. Its contract gives only the 81 cells: `PlacedShrinks`, `PlacedKeepsSolved`, `PlacedConsistent` and `Solutions.NakedKeeps` state what it keeps |
| Board.PlacedShrinks | SudokuSolver.py:88-94 | Placing `v` on a cell keeps every list a mark list; other cells only lose marks; when `v` was a mark of the cell, no cell gains a mark |
| Board.PlacedKeepsSolved | SudokuSolver.py:243-248 | On a consistent board, placing `v` leaves every other solved cell's marks alone unless that cell is a peer solved with `v` |
| Board.PlacedConsistent | SudokuSolver.py:243-248 | Placing a value that no solved peer has keeps the board consistent, with the cell now solved |
| Board.ResolveInert | SudokuSolver.py:116-118 | Re-solving an already-solved cell of a consistent board, which the stale `working_set` after `continue` leads to, changes no marks |
| Board.MutualSpec | SudokuSolver.py:175 | The intersection of the tuple cells' neighbour lists is exactly the other cells of their unit, outside the tuple |
| Board.PairMutual | SudokuSolver.py:160 | `set(pair[0].neighbors.row) & set(pair[1].neighbors.row)` (and the column and box forms) is the other 7 cells of the unit |
| Board.HiddenSubsetInert | SudokuSolver.py:184-187 | When every shared mark is exclusive, no mutual neighbour holds any shared mark |
| Board.Seeded | SudokuSolver.py:82-94 | The marks after the constructor: the nine digits everywhere, then each clue placed in turn. Its contract gives only the 81 cells: `SeededClosedForm` gives the result cell by cell |
| Board.SeededSolved | SudokuSolver.py:88-91 | The solved flags after the constructor: a cell is solved when some clue names it. It has no contract of its own: `ClueAtSpec` characterises the lookup |
| Board.ClueAtSpec | SudokuSolver.py:88-91 | The value found for a cell is the value of some clue on that cell; a cell that gets none is named by no clue |
| Board.SeededStep | SudokuSolver.py:88-94 | Each clue of the seed loop is a board cell with a digit, and handling it places its value and marks its cell solved |
| Board.SeededClosedForm | SudokuSolver.py:88-94 | For clues on distinct cells with no two peers alike, each cell ends with its clue's value, or the digits that no peer clue has |
| Board.NoClues | SudokuSolver.py:82-85 | Without clues the constructor leaves the closed form |
| Board.UnseededCell | SudokuSolver.py:48 | Without clues every cell keeps the nine digits |
| Board.InitialConsistent | SudokuSolver.py:88-94 | For such clues the seeded board is well formed and consistent: every clue value is absent from its 20 peers' marks |
| Board.InfoOf | SudokuSolver.py:97-98 | `info()`: the nine rows of `get_value()`, or `None` when a solved cell has no mark and `PencilMarks[0]` would raise. It has no contract of its own: `ConsistentInfo` and `InitialInfo` state what it shows |
| Board.ShownValue | SudokuSolver.py:67-72 | On a consistent board a solved cell holds exactly one mark, a digit from 1 to 9, and `get_value()` shows that digit without raising; an unsolved cell shows "X" |
| Board.ConsistentInfo | SudokuSolver.py:97-98 | On a consistent board `info()` never raises, and at row `i`, column `j` it shows the digit of the cell `9 * i + j` when that cell is solved, and "X" otherwise |
| Board.InitialValues | SudokuSolver.py:67-72 | Right after seeding, each cell shows its clue's digit, and "X" where it has none |
| Board.InitialInfo | SudokuSolver.py:97-98 | Right after seeding, `info()` is the 9x9 grid of the clue digits with "X" elsewhere |
| Board.Collapsed | SudokuSolver.py:238-239 | Cutting a cell's marks down to one of them keeps a mark list and only removes marks |
| Board.ShrinkConsistent | SudokuSolver.py:238-239 | Removing marks from unsolved cells only keeps a consistent board consistent |
| Board.NakedStep | SudokuSolver.py:243-248 | Solving a cell with its single mark and clearing it from the peers keeps the board well formed, only removes marks, and keeps consistency |
| Board.OneMarkStays | SudokuSolver.py:243-248 | Placing a value elsewhere leaves a single-mark cell with its mark or with none |
| Board.PrunedShrinks | SudokuSolver.py:181-183 | Removing a set of marks from some cells keeps every mark list and only removes marks |
| Board.PrunedInert | SudokuSolver.py:185-187 | Removing marks that the visited cells do not hold changes nothing |
| Board.PrunedConsistent | SudokuSolver.py:181-187 | Removing marks keeps a consistent board consistent when no solved cell loses its value |
| Board.Values | SudokuSolver.py:144 | The returned list has 81 entries, and each is the single mark of its cell |
| Board.SolvedGrid | SudokuSolver.py:143-144 | A consistent board with every cell solved holds one mark per cell, and those marks spell a completed Sudoku grid |
| Board.SolvedKept | SudokuSolver.py:108-144 | Between two consistent states, when marks only went and cells only got solved, every solved cell kept its value |
| Board.SinglesProgress | SudokuSolver.py:116-118 | When every cell of `working_set` that had one mark gets solved, the unsolved count does not grow, and it drops whenever there were new singles |
| Subsets.Shared | SudokuSolver.py:174 | `shared_marks`: the union of the marks of the tuple's cells (also line 153). It has no contract of its own: `Subsets.ReducedMarks` and `Subsets.PointedRemoves` state what the steps that use it do |
| Subsets.Exclusive | SudokuSolver.py:175-177 | `exclusive_marks`: the shared marks that no mutual neighbour of the tuple in its unit holds (also lines 152-155). It has no contract of its own: `Solutions.ReducedAllows` and `Solutions.PairValue` state what it guarantees |
| Subsets.Reduced | SudokuSolver.py:172-187 | The marks after one tuple of `reduce_r`. Its contract gives only the 81 cells: `ReducedBranches`, `ReducedSpec`, `ReducedMarks` and `Solutions.ReducedKeeps` state what it does |
| Subsets.Pointed | SudokuSolver.py:152-167 | The marks after one pair of `process_pointing_pairs`. Its contract gives only the 81 cells: `PointedSpec`, `PointedRemoves`, `PointedConsistent` and `Solutions.PointedKeeps` state what it does |
| Subsets.ElseBranchInert | SudokuSolver.py:184-187 | The `else` branch of `reduce_r`, where exclusive equals shared, removes nothing |
| Subsets.ReducedBranches | SudokuSolver.py:179-187 | A tuple step prunes the non-exclusive marks from the tuple when the hidden-subset branch fires; otherwise it is the `else` pruning or no change |
| Subsets.ReducedSpec | SudokuSolver.py:172-187 | A tuple step keeps every mark list, only removes marks, and changes no cell outside the tuple |
| Subsets.ReducedMarks | SudokuSolver.py:179-183 | When the hidden-subset branch fires, each tuple cell keeps exactly its old marks that are exclusive to the tuple |
| Subsets.LinePruned | SudokuSolver.py:157-167 | Clearing a mark from the rest of the pair's row or column changes only cells of that line other than the pair, and only removes marks |
| Subsets.PointedSpec | SudokuSolver.py:146-167 | A pair step keeps every mark list, only removes marks, and changes only cells of the pair's shared row or column, other than the pair |
| Subsets.PointedRemoves | SudokuSolver.py:155-167 | A pair step removes a mark only when it is the single mark of the pair that no other cell of their box holds |
| Subsets.LineConsistent | SudokuSolver.py:157-167 | Clearing marks of the pair from the rest of their line keeps a consistent board consistent |
| Subsets.PointedConsistent | SudokuSolver.py:146-167 | A pair step keeps a consistent board consistent |
| Solutions.NakedValue | SudokuSolver.py:241-244 | A cell down to one mark has that value in every grid the marks allow |
| Solutions.NakedKeeps | SudokuSolver.py:243-248 | Solving a naked single and clearing its value from the peers keeps every completed grid the marks allow |
| Solutions.HiddenInUnit | SudokuSolver.py:232-234 | A mark that no other cell of one unit of the cell holds is the cell's value in every completed grid the marks allow |
| Solutions.HiddenValue | SudokuSolver.py:230-236 | A hidden single is the cell's value in every completed grid the marks allow |
| Solutions.HiddenKeeps | SudokuSolver.py:238-239 | Collapsing a cell to its hidden single keeps every completed grid the marks allow |
| Solutions.ReducedAllows | SudokuSolver.py:177-179 | When `r` cells of a unit hold exactly `r` marks no other cell of the unit holds, those cells take their values from those marks in every allowed grid |
| Solutions.ReducedKeeps | SudokuSolver.py:179-187 | A tuple step of `reduce_r` keeps every completed grid the marks allow |
| Solutions.PairValue | SudokuSolver.py:153-156 | A mark that only the two cells of a pair hold in their unit is the value of one of them in every allowed grid |
| Solutions.PointedAllows | SudokuSolver.py:155-167 | The pair's mark that is exclusive to their box is not the value of any cell that is a peer of both, in any allowed grid |
| Solutions.LineKeeps | SudokuSolver.py:157-167 | Clearing that mark from the rest of the pair's line keeps every allowed grid |
| Solutions.PointedKeeps | SudokuSolver.py:146-167 | A pair step of `process_pointing_pairs` keeps every completed grid the marks allow |
| Solutions.EmptyAllowsNone | SudokuSolver.py:244 | A cell with no mark left allows no grid |
| Solutions.EmptiedAllowsNone | SudokuSolver.py:244 | When the rules empty a cell, the starting marks allowed no completed grid |
| Solutions.SingletonsAllowOne | SudokuSolver.py:144 | Marks down to one per cell allow exactly the grid they spell |
| Solutions.SeededAllows | SudokuSolver.py:88-94 | The completed grids the seeded marks allow are exactly those that agree with the clues |
| Solutions.SolvedAllowsOne | SudokuSolver.py:143-144 | When rules that keep solutions end with one mark per cell on a completed grid, that grid is the only completed grid the starting marks allowed |
| Solutions.FinishedSolution | SudokuSolver.py:143-144 | At the end of `solve` every cell is solved with one mark; the values form a completed grid that keeps every clue; it is the only completed grid the starting marks allowed |
| Loops.FirstHidden | SudokuSolver.py:229-236 | The inner loop of the hidden-single search from the `k`-th mark of the cell on. It has no contract of its own: `FirstHiddenSpec` characterises it |
| Loops.FirstHiddenSpec | SudokuSolver.py:229-236 | The mark the search returns is a mark of the cell that no other cell of its row, of its column or of its box holds, and no earlier mark of the cell is such a mark; `None` means that no mark of the cell is one |
| Loops.Collapse | SudokuSolver.py:229-239 | The body of the hidden-single loop for one cell: its first hidden single becomes its only mark, and without one the marks stay. No contract of its own: `Sudoku.Puzzle.CollapseCell` computes it |
| Loops.CollapsedFrom | SudokuSolver.py:228-239 | The hidden-single loop from position `i` of its list on: `Collapse` applied to each remaining cell in list order, each seeing the changes of the earlier ones. Its contract gives only the 81 cells |
| Loops.HiddenCollapsed | SudokuSolver.py:227-239 | The first loop of `process_singles`: `CollapsedFrom` over the cells of `working_set` with more than one mark, in their order. Its contract gives only the 81 cells: `Sudoku.Puzzle.CollapseHiddenSingles` states what it does |
| Loops.PlacedFrom | SudokuSolver.py:243-248 | The naked-single loop from position `i` of its list on: each cell solved with its first mark, which leaves its peers; it stops at the first cell with no mark left, where `PencilMarks[0]` raises. Its contract gives only the 81 cells: `PlacedFromSpec` states what it does |
| Loops.NakedSolved | SudokuSolver.py:241-248 | The second loop of `process_singles`: `PlacedFrom` over the cells of `working_set` with one mark, in their order. Its contract gives only the 81 cells |
| Loops.PlacedFromSpec | SudokuSolver.py:241-248 | While every cell still to come has at most one mark, the naked-single loop only removes marks and only sets cells solved. It solves only cells of its list, and all of them when it runs to the end. It keeps a consistent board consistent and every completed grid the marks allow. It stops early only at a cell of its list with no mark left |
| Loops.SinglesProcessed | SudokuSolver.py:225-249 | `process_singles` as a function: the hidden-single loop, then the naked-single loop on the collapsed marks. Its contract gives only the 81 cells: `Sudoku.Puzzle.ProcessSingles` states what it does |
| Loops.PairsFrom | SudokuSolver.py:173-187 | `for cell_tuple in combinations(cells, 2)` from the pair at positions `a`, `b` on: `Reduced` for each pair in lexicographic order, each seeing the removals of the earlier ones. Its contract gives only the 81 cells: `PairsFromSpec` states what it does |
| Loops.TriplesFrom | SudokuSolver.py:173-187 | The same loop with `combinations(cells, 3)` from the triple at positions `a`, `b`, `c` on, in lexicographic order. Its contract gives only the 81 cells: `TriplesFromSpec` states what it does |
| Loops.TupleSpec | SudokuSolver.py:172-187 | One tuple step over cells of one unit keeps the mark lists, only removes marks, changes only cells of the unit's list, and keeps every completed grid the marks allow |
| Loops.PairsFromSpec | SudokuSolver.py:173-187 | The pairs of a unit's list, from any position on, only remove marks, change only cells of the list, and keep every completed grid the marks allow |
| Loops.TriplesFromSpec | SudokuSolver.py:173-187 | The triples of a unit's list, from any position on, only remove marks, change only cells of the list, and keep every completed grid the marks allow |
| Loops.UnitReduced | SudokuSolver.py:172-187 | One unit of `reduce_r`: the cells of `working_set` in that unit with more than one mark (`working_row` and its copies), then `PairsFrom` or `TriplesFrom` over them. Its contract gives only the 81 cells: `Sudoku.Puzzle.ReduceUnit` states what it does |
| Loops.UnitsFrom | SudokuSolver.py:171-222 | `for i in range(9)` of `reduce_r` from `i = u` on: row `i`, column `i` and box `i` for each index in turn, then the pointing pairs. Its contract gives only the 81 cells |
| Loops.PointedFrom | SudokuSolver.py:146-167 | `process_pointing_pairs` from the pair at positions `i`, `j` of `working_set` on: `Pointed` for each pair of `combinations(working_set, 2)` that shares a box and a row or a column, in lexicographic order. Its contract gives only the 81 cells: `PointedFromSpec` states what it does |
| Loops.PointedFromSpec | SudokuSolver.py:146-167 | The pointing-pair loop, from any position on, only removes marks, keeps every completed grid the marks allow, and keeps a consistent board consistent |
| Loops.ReducedAll | SudokuSolver.py:169-222 | `reduce_r(working_set, r)`: `UnitsFrom` from index 0. Its contract gives only the 81 cells: `Sudoku.Puzzle.ReduceR` states what it does |
| Loops.Reduction | SudokuSolver.py:120-132 | `reduce_r` with pairs over the unsolved cells and, unless that left new singles, `reduce_r` with triples over the same cells. Its contract gives only the 81 cells: `Sudoku.Puzzle.ReduceRules` states what it does |
| Sudoku.TurnEnd | SudokuSolver.py:132-143 | How a turn ends after `reduce_r`: `continue` when it left singles, `return None` when the unsolved count equals `unsolved_before`, the end of the loop when it is 0, and another pass otherwise. No contract of its own: `TurnProgress` states what each end promises |
| Sudoku.TurnOf | SudokuSolver.py:113-143 | One turn of the loop of `solve` as a function of the board, `working_set` and `unsolved_before`: `process_singles`, then, unless it raised or found singles, `Reduction` and the progress check. No contract of its own: `Sudoku.Puzzle.Pass` computes it |
| Sudoku.TurnProgress | SudokuSolver.py:132-143 | A turn that reaches the progress check, with no singles on the board before `reduce_r`, advances. On `continue` or a new pass, the new `working_set` holds every unsolved cell and the termination measure drops. It gives up only with no singles left. It finishes only with no cell unsolved. With `unsolved_before` at 0 it always gives up |
| Sudoku.SinglesAdvance | SudokuSolver.py:116-118 | A turn that ends at the first `continue`, after every cell of `working_set` with one mark was solved, keeps `working_set` holding every unsolved cell and lowers the termination measure |
| Sudoku.Puzzle.constructor | SudokuSolver.py:82-95 | The constructor builds the seeded marks and marks exactly the clue cells solved; for clues on distinct cells with no two peers alike, the board is consistent |
| Sudoku.Puzzle.SolveCell | SudokuSolver.py:63-65 | `solve(v)` leaves the cell with the marks `[v]` and solved; nothing else changes |
| Sudoku.Puzzle.RemoveMarkFrom | SudokuSolver.py:92-94 | `remove_mark(v)` on each cell of a repeat-free list removes `v` from exactly those cells |
| Sudoku.Puzzle.RemoveFromPeers | SudokuSolver.py:246-248 | The `aggregate()` loop removes `v` from exactly the cell's peers |
| Sudoku.Puzzle.Place | SudokuSolver.py:243-248 | Solving a cell with `v` and clearing `v` from its peers gives the placed board, with the cell now solved |
| Sudoku.Puzzle.HiddenSingle | SudokuSolver.py:229-236 | The result is the first mark of the cell, in list order, that no other cell of its row, column or box holds; there is none when no mark qualifies |
| Sudoku.Puzzle.CollapseCell | SudokuSolver.py:228-239 | Returns the cell's first hidden single in list order (`FirstHidden`) and leaves `Collapse` of the marks: the cell cut down to that mark, or unchanged without one. Only that cell changes, marks only shrink, and every completed grid the marks allow is kept |
| Sudoku.Puzzle.CollapseHiddenSingles | SudokuSolver.py:227-239 | The hidden-single loop leaves exactly `HiddenCollapsed` of the old marks: each multi-mark cell of `working_set`, in order, cut down to its first hidden single. Only multi-mark cells of `working_set` change, each to one mark. No cell is set solved; consistency and every allowed grid are kept |
| Sudoku.Puzzle.SolveEach | SudokuSolver.py:243-248 | The naked-single loop leaves exactly `PlacedFrom` of the old board, with `ok` false where `PencilMarks[0]` raises. It solves only cells of its list, and all of them when `ok`. Marks only shrink; consistency and every allowed grid are kept. Failure means some cell of the list lost its only mark |
| Sudoku.Puzzle.SolveNakedSingles | SudokuSolver.py:241-248 | Leaves exactly `NakedSolved` of the old board. On success every cell of `working_set` with one mark is solved. Only such cells become solved. On failure some cell of `working_set` is empty |
| Sudoku.Puzzle.ProcessSingles | SudokuSolver.py:225-251 | Leaves exactly `SinglesProcessed` of the old board: the hidden singles collapsed, then the naked singles solved. Every cell of `working_set` with one mark after the collapse gets solved, and only such cells do. It keeps consistency and every allowed grid, and returns exactly the unsolved cells left with one mark |
| Sudoku.Puzzle.RemoveMarks | SudokuSolver.py:182-183 | Removing a set of marks from one cell replaces its list by the list without those marks; no other cell changes |
| Sudoku.Puzzle.PruneCells | SudokuSolver.py:181-183 | The nested removal loops give the pruned board |
| Sudoku.Puzzle.ReduceTuple | SudokuSolver.py:174-187 | One tuple of `reduce_r` gives the reduced board: marks only shrink, and only cells of the tuple change |
| Sudoku.Puzzle.ReducePairs | SudokuSolver.py:173-187 | Leaves exactly `PairsFrom` of the old marks from the first pair: every pair of the unit's list in lexicographic order, each seeing the removals of the earlier ones. Marks only shrink, only cells of the list change, and every allowed grid is kept |
| Sudoku.Puzzle.ReducePartners | SudokuSolver.py:173-187 | The pairs whose first cell is `cells[a]` take `PairsFrom` one first cell further |
| Sudoku.Puzzle.PairStep | SudokuSolver.py:173-187 | One pair takes `PairsFrom` one pair further |
| Sudoku.Puzzle.ReduceTriples | SudokuSolver.py:173-187 | Leaves exactly `TriplesFrom` of the old marks from the first triple: every triple of the unit's list in lexicographic order. Marks only shrink, only cells of the list change, and every allowed grid is kept |
| Sudoku.Puzzle.ReduceSeconds | SudokuSolver.py:173-187 | The triples whose first cell is `cells[a]` take `TriplesFrom` one first cell further |
| Sudoku.Puzzle.ReduceThirds | SudokuSolver.py:173-187 | The triples whose first two cells are `cells[a]` and `cells[b]` take `TriplesFrom` one second cell further |
| Sudoku.Puzzle.TripleStep | SudokuSolver.py:173-187 | One triple takes `TriplesFrom` one triple further |
| Sudoku.Puzzle.ReduceUnit | SudokuSolver.py:172-187 | Leaves exactly `UnitReduced` of the old marks. Only multi-mark cells of `working_set` change. Consistency and every allowed grid are kept |
| Sudoku.Puzzle.PointingPair | SudokuSolver.py:152-167 | One pair of `process_pointing_pairs` gives the pointed board, and marks only shrink |
| Sudoku.Puzzle.PointingPairs | SudokuSolver.py:146-167 | Leaves exactly `PointedFrom` of the old marks from the first pair: every aligned pair of `working_set` in lexicographic order. Marks only shrink; consistency and every allowed grid are kept |
| Sudoku.Puzzle.PointingPartners | SudokuSolver.py:151-167 | The pairs whose first cell is `working_set[i]` take `PointedFrom` one first cell further |
| Sudoku.Puzzle.PointingStep | SudokuSolver.py:147-167 | One pair of `combinations(working_set, 2)`, examined only when it shares a box and a row or a column, takes `PointedFrom` one pair further |
| Sudoku.Puzzle.ReduceR | SudokuSolver.py:169-223 | Leaves exactly `ReducedAll` of the old marks: row, column and box `i` for `i` from 0 to 8, then the pointing pairs. Marks only shrink; consistency and every allowed grid are kept. It returns exactly the unsolved cells with one mark |
| Sudoku.Puzzle.Pass | SudokuSolver.py:113-143 | One turn of the loop leaves exactly `TurnOf` of the old board. Marks only shrink, solved stays solved, and every allowed grid is kept. Failure means an emptied cell. Otherwise consistency is kept and the turn advances: a `continue` or a new pass leaves `working_set` holding every unsolved cell and strictly lowers the termination measure; giving up leaves no singles; finishing leaves no cell unsolved |
| Sudoku.Puzzle.ReduceRules | SudokuSolver.py:120-132 | Leaves exactly `Reduction` of the marks. Marks only shrink; consistency and every allowed grid are kept. It returns exactly the unsolved cells left with one mark |
| Sudoku.Puzzle.ReduceTurn | SudokuSolver.py:120-143 | Leaves `Reduction` of the marks, with `working_set` the unsolved cells. It gives up exactly when no singles appeared and the unsolved count equals `unsolved_before`. `unsolved_before` becomes that count unless singles appeared. It keeps consistency and every allowed grid, and advances as `Pass` says |
| Sudoku.Puzzle.Solve | SudokuSolver.py:108-144 | `solve` terminates. A returned list is a completed grid matching every solved cell, and the only completed grid the starting marks allow. `None` leaves a consistent board with no singles, and comes out whenever nothing was unsolved at the start. An emptied cell shows no completed grid was possible |
| Sudoku.SolveClues | SudokuSolver.py:281-290 | `Puzzle(seed).solve()`: a returned grid is the only completed grid that agrees with the clues; a contradiction shows that no completed grid agrees with them |

## Left out

- `CellNeighbors.info`, `GridCell.info`, `dump_marks`, the `print` calls and the `__main__` demo are console output and are not modelled. `Puzzle.info` is modelled as `Board.InfoOf`.
- `itertools.combinations` is written as nested index loops in lexicographic order, for the two tuple sizes that `solve` uses (2 and 3).
- Cells are modelled by their index. `Puzzle` keeps two arrays, `marks` and `solved`, in place of the list of `GridCell` objects. The neighbour lists are functions of the index rather than stored lists. Object identity is not modelled.
- Python iterates over sets in an unspecified order. The loops over cell sets and mark sets are modelled in ascending order. For marks the order provably does not matter (`Cells.RemoveMarkWithout`). For cells the removals touch distinct cells.
- Sudoku.Puzzle.constructor: the clue rows and columns (0..8) and values (1..9) are a precondition. The source does not check them. Consistency of the seeded board is promised only for clues on distinct cells with no two peers alike.
- Sudoku.Puzzle.Solve: the board must be consistent on entry (solved cells hold one mark, and no peer has it). The source accepts any board. `Sudoku.SolveClues` reaches a consistent board from well-posed clues.
- Sudoku.Puzzle.Solve: `Stuck` (`None`) promises only a consistent board with no singles left, and that every allowed grid is kept. It does not claim the puzzle has no solution.
- The `IndexError` at line 244 is modelled as the outcome `Contradiction`: `ok` is false, and a cell is left with no marks. The exception itself is not modelled.
- The `else` branch of `reduce_r` (lines 184-187 and their column and box copies) is executed by `Sudoku.Puzzle.ReduceTuple`. It is proved to remove nothing (`Subsets.ElseBranchInert`), so `Subsets.Reduced` leaves it out.
- `working_set` at line 135 is not recomputed. `reduce_r` only calls `remove_mark` (lines 161, 167, 183 and 187), so it solves no cell, and the unsolved cells at line 135 are those of line 120. `Sudoku.Puzzle.ReduceTurn` reuses the list of line 120 for the progress check. `ReduceRules` may change only `marks`, so `solved` is provably the same at both lines.
- The fixed puzzles of `test_puzzle.py` are not evaluated.
