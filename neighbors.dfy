/**
 * The neighbour index of a 9x9 board whose 81 cells are numbered 0..80 in
 * row-major order: for each cell the other cells of its row, its column and
 * its 3x3 box (`CellNeighbors`), and the cell's own coordinates (`GridCell`).
 */
module Neighbors {
  import opened Lists

  predicate IsPos(p: int)
  {
    0 <= p < 81
  }

  /** `GridCell.row_index`: the quotient of `divmod(index, 9)`. */
  function RowOf(p: int): int
  {
    p / 9
  }

  /** `GridCell.column_index`: the remainder of `divmod(index, 9)`. */
  function ColumnOf(p: int): int
  {
    p % 9
  }

  /** `GridCell.grid`: boxes are numbered 0..8 row-major from the upper left. */
  function BoxOf(p: int): int
  {
    3 * (RowOf(p) / 3) + ColumnOf(p) / 3
  }

  /** `CellNeighbors.grid_index`: the box number computed straight from the index. */
  function GridIndex(index: int): int
  {
    3 * (index / 27) + (index % 9) / 3
  }

  /** The test `x != index` of the three comprehensions. */
  function NotIndex(index: int): int -> bool
  {
    x => x != index
  }

  /** The test of the `grid` comprehension: another cell with the same grid index. */
  function SameGrid(index: int): int -> bool
  {
    x => x != index && GridIndex(x) == GridIndex(index)
  }

  /** The test `x not in self.row and x not in self.column` of `aggregate`. */
  function NotInEither(row: seq<int>, column: seq<int>): int -> bool
  {
    x => x !in row && x !in column
  }

  /** `CellNeighbors.row`. */
  function RowNeighbors(index: int): seq<int>
  {
    var rowStart := index - index % 9;
    Filter(Range(rowStart, rowStart + 9, 1), NotIndex(index))
  }

  /** `CellNeighbors.column`. */
  function ColumnNeighbors(index: int): seq<int>
  {
    Filter(Range(index % 9, 81, 9), NotIndex(index))
  }

  /** The number of cells, the bound of `range(81)`. */
  const CellCount: int := 81

  /** `CellNeighbors.grid`: all eight other cells of the box. */
  function GridNeighbors(index: int): seq<int>
  {
    Filter(Range(0, CellCount, 1), SameGrid(index))
  }

  /** `CellNeighbors.aggregate()`: row, then column, then the box cells on neither line. */
  function Aggregate(index: int): seq<int>
  {
    var row, column := RowNeighbors(index), ColumnNeighbors(index);
    row + column + Filter(GridNeighbors(index), NotInEither(row, column))
  }

  /** Two different cells that share a row, a column or a box. */
  predicate Peers(p: int, q: int)
  {
    p != q && (RowOf(p) == RowOf(q) || ColumnOf(p) == ColumnOf(q) || BoxOf(p) == BoxOf(q))
  }

  /** The three kinds of unit that the subset rules scan. */
  datatype Unit = Row | Column | Box

  /** The coordinate a unit kind compares: `row_index`, `column_index` or `grid`. */
  function UnitIndex(kind: Unit, p: int): int
  {
    match kind
    case Row => RowOf(p)
    case Column => ColumnOf(p)
    case Box => BoxOf(p)
  }

  /** The neighbour list a unit kind reads: `neighbors.row`, `.column` or `.grid`. */
  function UnitNeighbors(kind: Unit, p: int): seq<int>
  {
    match kind
    case Row => RowNeighbors(p)
    case Column => ColumnNeighbors(p)
    case Box => GridNeighbors(p)
  }

  /** The index of the cell at row `r`, column `c` (`9 * i[0] + i[1]` for a clue). */
  function CellAt(r: int, c: int): int
  {
    9 * r + c
  }

  /** The nine cells of box `box`, in ascending order. */
  function BoxCells(box: int): seq<int>
  {
    Block(3 * (box / 3), 3 * (box % 3))
  }

  /** The 3x3 block of cells whose upper-left cell is at row `top`, column `left`. */
  function Block(top: int, left: int): seq<int>
  {
    BlockRow(top, left) + BlockRow(top + 1, left) + BlockRow(top + 2, left)
  }

  function BlockRow(r: int, left: int): seq<int>
  {
    [CellAt(r, left), CellAt(r, left + 1), CellAt(r, left + 2)]
  }

  lemma {:induction false} Coordinates(r: int, c: int)
    requires 0 <= c < 9
    ensures RowOf(CellAt(r, c)) == r && ColumnOf(CellAt(r, c)) == c
  {
  }

  /** `grid_index(index)` is the cell's `grid` coordinate. */
  lemma {:induction false} GridIndexIsBox(p: int)
    requires p >= 0
    ensures GridIndex(p) == BoxOf(p)
  {
    var q := p / 9;
    assert p == 9 * q + p % 9;
    assert q == 3 * (q / 3) + q % 3;
    assert p == 27 * (q / 3) + (9 * (q % 3) + p % 9);
    assert 0 <= 9 * (q % 3) + p % 9 < 27;
  }

  lemma {:induction false} BlockAscending(top: int, left: int)
    requires 0 <= left <= 6
    ensures Ascending(Block(top, left)) && |Block(top, left)| == 9
  {
  }

  /** A 3x3 block holds exactly the cells on its three rows and three columns. */
  lemma {:induction false} BlockMembers(top: int, left: int)
    requires 0 <= left <= 6
    ensures forall x :: x in Block(top, left) <==> top <= RowOf(x) < top + 3 && left <= ColumnOf(x) < left + 3
  {
    var s := Block(top, left);
    BlockRowMembers(top, left);
    BlockRowMembers(top + 1, left);
    BlockRowMembers(top + 2, left);
    forall x | top <= RowOf(x) < top + 3 && left <= ColumnOf(x) < left + 3 ensures x in s {
      BlockHas(top, left, RowOf(x), ColumnOf(x));
      assert x == CellAt(RowOf(x), ColumnOf(x));
    }
  }

  /** The cells of one row of a block lie on that row, in the block's three columns. */
  lemma BlockRowMembers(r: int, left: int)
    requires 0 <= left <= 6
    ensures forall x :: x in BlockRow(r, left) ==> RowOf(x) == r && left <= ColumnOf(x) < left + 3
  {
    Coordinates(r, left);
    Coordinates(r, left + 1);
    Coordinates(r, left + 2);
  }

  lemma {:induction false} BlockHas(top: int, left: int, r: int, c: int)
    requires top <= r < top + 3 && left <= c < left + 3
    ensures CellAt(r, c) in Block(top, left)
  {
    var s := Block(top, left);
    assert CellAt(r, c) == s[3 * (r - top) + (c - left)];
  }

  /** Box `box` spans rows `3 * (box / 3)` to `+2` and columns `3 * (box % 3)` to `+2`. */
  lemma {:induction false} BoxRange(x: int, box: int)
    requires IsPos(x) && 0 <= box < 9
    ensures BoxOf(x) == box <==>
      3 * (box / 3) <= RowOf(x) < 3 * (box / 3) + 3 && 3 * (box % 3) <= ColumnOf(x) < 3 * (box % 3) + 3
  {
    var r, c := RowOf(x), ColumnOf(x);
    assert 0 <= c / 3 < 3;
  }

  /** A number whose row lies in 0..8 is a cell index. */
  lemma RowBounds(x: int)
    requires 0 <= RowOf(x) < 9
    ensures IsPos(x)
  {
    var r, c := RowOf(x), ColumnOf(x);
    assert x == 9 * r + c && 0 <= c < 9;
  }

  lemma {:induction false} BoxCellsSpec(box: int)
    requires 0 <= box < 9
    ensures Ascending(BoxCells(box)) && |BoxCells(box)| == 9
    ensures forall x :: x in BoxCells(box) <==> IsPos(x) && BoxOf(x) == box
  {
    var top, left := 3 * (box / 3), 3 * (box % 3);
    BlockAscending(top, left);
    BlockMembers(top, left);
    forall x | x in BoxCells(box) ensures IsPos(x) {
      RowBounds(x);
    }
    forall x | IsPos(x) ensures BoxOf(x) == box <==> top <= RowOf(x) < top + 3 && left <= ColumnOf(x) < left + 3 {
      BoxRange(x, box);
    }
  }

  lemma {:induction false} RowMembers(p: int)
    requires IsPos(p)
    ensures forall x :: x in RowNeighbors(p) <==> IsPos(x) && x != p && RowOf(x) == RowOf(p)
  {
    var rowStart := p - p % 9;
    RangeMembers(rowStart, rowStart + 9);
  }

  lemma {:induction false} RowShape(p: int)
    requires IsPos(p)
    ensures Ascending(RowNeighbors(p)) && |RowNeighbors(p)| == 8
  {
    var rowStart := p - p % 9;
    var line := Range(rowStart, rowStart + 9, 1);
    RangeMembers(rowStart, rowStart + 9);
    RangeAscending(rowStart, rowStart + 9, 1);
    RangeLength(rowStart, rowStart + 9, 1, 9);
    FilterDropsOne(line, NotIndex(p), p);
    FilterAscending(line, NotIndex(p));
  }

  /** `neighbors.row` holds, in ascending order, the 8 other cells of the row. */
  lemma {:induction false} RowNeighborsSpec(p: int)
    requires IsPos(p)
    ensures Ascending(RowNeighbors(p)) && |RowNeighbors(p)| == 8
    ensures forall x :: x in RowNeighbors(p) <==> IsPos(x) && x != p && RowOf(x) == RowOf(p)
  {
    RowMembers(p);
    RowShape(p);
  }

  lemma {:induction false} ColumnMembers(p: int)
    requires IsPos(p)
    ensures forall x :: x in ColumnNeighbors(p) <==> IsPos(x) && x != p && ColumnOf(x) == ColumnOf(p)
  {
    var c := p % 9;
    var line := Range(c, 81, 9);
    assert 0 <= c < 9 && c % 9 == c;
    RangeMembers9(c, 81);
    forall x ensures x in ColumnNeighbors(p) <==> IsPos(x) && x != p && ColumnOf(x) == c {
      assert x in ColumnNeighbors(p) <==> x in line && NotIndex(p)(x);
      if IsPos(x) && x % 9 == c {
        assert x == 9 * (x / 9) + c && x / 9 >= 0;
      }
    }
  }

  lemma {:induction false} ColumnShape(p: int)
    requires IsPos(p)
    ensures Ascending(ColumnNeighbors(p)) && |ColumnNeighbors(p)| == 8
  {
    var line := Range(p % 9, 81, 9);
    RangeMembers9(p % 9, 81);
    RangeAscending(p % 9, 81, 9);
    RangeLength(p % 9, 81, 9, 9);
    FilterDropsOne(line, NotIndex(p), p);
    FilterAscending(line, NotIndex(p));
  }

  /** `neighbors.column` holds, in ascending order, the 8 other cells of the column. */
  lemma {:induction false} ColumnNeighborsSpec(p: int)
    requires IsPos(p)
    ensures Ascending(ColumnNeighbors(p)) && |ColumnNeighbors(p)| == 8
    ensures forall x :: x in ColumnNeighbors(p) <==> IsPos(x) && x != p && ColumnOf(x) == ColumnOf(p)
  {
    ColumnMembers(p);
    ColumnShape(p);
  }

  lemma {:induction false} GridMembers(p: int)
    requires IsPos(p)
    ensures forall x :: x in GridNeighbors(p) <==> IsPos(x) && x != p && BoxOf(x) == BoxOf(p)
  {
    RangeMembers(0, 81);
    GridIndexIsBox(p);
    forall x | IsPos(x) ensures GridIndex(x) == BoxOf(x) {
      GridIndexIsBox(x);
    }
  }

  lemma {:induction false} GridAscending(p: int)
    requires IsPos(p)
    ensures Ascending(GridNeighbors(p))
  {
    RangeAscending(0, 81, 1);
    FilterAscending(Range(0, CellCount, 1), SameGrid(p));
  }

  lemma {:induction false} OthersInBlock(p: int, top: int, left: int)
    requires 0 <= left <= 6 && p in Block(top, left)
    ensures Ascending(Filter(Block(top, left), NotIndex(p)))
    ensures |Filter(Block(top, left), NotIndex(p))| == 8
  {
    BlockAscending(top, left);
    BlockMembers(top, left);
    FilterAscending(Block(top, left), NotIndex(p));
    FilterDropsOne(Block(top, left), NotIndex(p), p);
  }

  /** The box minus `p` holds eight cells. */
  lemma {:induction false} OthersInBox(p: int)
    requires IsPos(p)
    ensures Ascending(Filter(BoxCells(BoxOf(p)), NotIndex(p)))
    ensures |Filter(BoxCells(BoxOf(p)), NotIndex(p))| == 8
    ensures forall x :: x in Filter(BoxCells(BoxOf(p)), NotIndex(p)) <==> IsPos(x) && x != p && BoxOf(x) == BoxOf(p)
  {
    BoxCorner(p);
    BoxCellsSpec(BoxOf(p));
    OthersInBlock(p, 3 * (BoxOf(p) / 3), 3 * (BoxOf(p) % 3));
  }

  lemma {:induction false} GridShape(p: int)
    requires IsPos(p)
    ensures Ascending(GridNeighbors(p)) && |GridNeighbors(p)| == 8
  {
    GridAscending(p);
    GridMembers(p);
    OthersInBox(p);
    SortedUnique(GridNeighbors(p), Filter(BoxCells(BoxOf(p)), NotIndex(p)));
  }

  /** `neighbors.grid` holds, in ascending order, all 8 other cells of the box. */
  lemma {:induction false} GridNeighborsSpec(p: int)
    requires IsPos(p)
    ensures Ascending(GridNeighbors(p)) && |GridNeighbors(p)| == 8
    ensures forall x :: x in GridNeighbors(p) <==> IsPos(x) && x != p && BoxOf(x) == BoxOf(p)
  {
    GridMembers(p);
    GridShape(p);
  }

  /** The test "on neither the row nor the column of `p`". */
  function OffLines(p: int): int -> bool
  {
    x => RowOf(x) != RowOf(p) && ColumnOf(x) != ColumnOf(p)
  }

  /** The row and column where a cell's box starts. */
  lemma {:induction false} BoxCorner(p: int)
    requires IsPos(p)
    ensures 0 <= BoxOf(p) < 9
    ensures 3 * (BoxOf(p) / 3) <= RowOf(p) < 3 * (BoxOf(p) / 3) + 3
    ensures 3 * (BoxOf(p) % 3) <= ColumnOf(p) < 3 * (BoxOf(p) % 3) + 3
  {
    var r, c := RowOf(p), ColumnOf(p);
    assert 0 <= c / 3 < 3;
    assert BoxOf(p) / 3 == r / 3 && BoxOf(p) % 3 == c / 3;
  }

  /** One row of `p`'s box holds no cell off `p`'s lines if it is `p`'s row, and two otherwise. */
  lemma {:induction false} BlockRowCount(p: int, r: int, left: int)
    requires IsPos(p) && 0 <= left <= 6
    requires left <= ColumnOf(p) < left + 3
    ensures |Filter(BlockRow(r, left), OffLines(p))| == if r == RowOf(p) then 0 else 2
  {
    Filter3(CellAt(r, left), CellAt(r, left + 1), CellAt(r, left + 2), OffLines(p));
    Coordinates(r, left);
    Coordinates(r, left + 1);
    Coordinates(r, left + 2);
  }

  lemma {:induction false} BlockCount(p: int, top: int, left: int)
    requires IsPos(p) && 0 <= left <= 6
    requires top <= RowOf(p) < top + 3 && left <= ColumnOf(p) < left + 3
    ensures |Filter(Block(top, left), OffLines(p))| == 4
  {
    FilterConcat(BlockRow(top, left) + BlockRow(top + 1, left), BlockRow(top + 2, left), OffLines(p));
    FilterConcat(BlockRow(top, left), BlockRow(top + 1, left), OffLines(p));
    BlockRowCount(p, top, left);
    BlockRowCount(p, top + 1, left);
    BlockRowCount(p, top + 2, left);
  }

  /** Four cells of a box lie on neither the row nor the column of a given cell of it. */
  lemma {:induction false} OffLineCount(p: int)
    requires IsPos(p)
    ensures |Filter(BoxCells(BoxOf(p)), OffLines(p))| == 4
  {
    BoxCorner(p);
    BlockCount(p, 3 * (BoxOf(p) / 3), 3 * (BoxOf(p) % 3));
  }

  /** The box cells that `aggregate()` appends are the four corners off the row and column. */
  lemma {:induction false} CornerCount(p: int)
    requires IsPos(p)
    ensures Ascending(Filter(GridNeighbors(p), NotInEither(RowNeighbors(p), ColumnNeighbors(p))))
    ensures |Filter(GridNeighbors(p), NotInEither(RowNeighbors(p), ColumnNeighbors(p)))| == 4
  {
    var row, column, grid := RowNeighbors(p), ColumnNeighbors(p), GridNeighbors(p);
    RowMembers(p);
    ColumnMembers(p);
    GridNeighborsSpec(p);
    var rest := Filter(grid, NotInEither(row, column));
    FilterAscending(grid, NotInEither(row, column));
    var corners := Filter(BoxCells(BoxOf(p)), OffLines(p));
    BoxCorner(p);
    BoxCellsSpec(BoxOf(p));
    FilterAscending(BoxCells(BoxOf(p)), OffLines(p));
    forall x ensures x in rest <==> x in corners {
      if x in rest {
        assert x in grid && x !in row && x !in column;
      }
      if x in corners {
        assert x in BoxCells(BoxOf(p)) && RowOf(x) != RowOf(p) && ColumnOf(x) != ColumnOf(p);
      }
    }
    SortedUnique(rest, corners);
    OffLineCount(p);
  }

  lemma {:induction false} AggregateMembers(p: int)
    requires IsPos(p)
    ensures forall x :: x in Aggregate(p) <==> IsPos(x) && Peers(p, x)
  {
    RowMembers(p);
    ColumnMembers(p);
    GridMembers(p);
  }

  lemma {:induction false} AggregateDistinct(p: int)
    requires IsPos(p)
    ensures |Aggregate(p)| == 20 && Distinct(Aggregate(p))
  {
    var row, column := RowNeighbors(p), ColumnNeighbors(p);
    var rest := Filter(GridNeighbors(p), NotInEither(row, column));
    RowNeighborsSpec(p);
    ColumnNeighborsSpec(p);
    CornerCount(p);
    Distinct3(row, column, rest);
  }

  /**
   * `aggregate()` lists 20 distinct cells: exactly the peers of `p`
   * (8 in the row, 8 in the column, 4 more in the box).
   */
  lemma {:induction false} AggregateSpec(p: int)
    requires IsPos(p)
    ensures |Aggregate(p)| == 20 && Distinct(Aggregate(p))
    ensures forall x :: x in Aggregate(p) <==> IsPos(x) && Peers(p, x)
  {
    AggregateMembers(p);
    AggregateDistinct(p);
  }

  /** The neighbour relation is symmetric. */
  lemma {:induction false} AggregateSymmetric(p: int, q: int)
    requires IsPos(p) && IsPos(q)
    ensures q in Aggregate(p) <==> p in Aggregate(q)
  {
    AggregateMembers(p);
    AggregateMembers(q);
  }

  /** `neighbors.row`, `.column` and `.grid` hold the other cells of the unit of each kind. */
  lemma {:induction false} UnitNeighborsSpec(kind: Unit, p: int)
    requires IsPos(p)
    ensures Ascending(UnitNeighbors(kind, p)) && |UnitNeighbors(kind, p)| == 8
    ensures forall x :: x in UnitNeighbors(kind, p) <==> IsPos(x) && x != p && UnitIndex(kind, x) == UnitIndex(kind, p)
  {
    match kind
    case Row => RowNeighborsSpec(p);
    case Column => ColumnNeighborsSpec(p);
    case Box => GridNeighborsSpec(p);
  }
}
