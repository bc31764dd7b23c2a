/**
 * The loops of `Puzzle` as functions on the board. Each loop of the solver
 * visits its cells, pairs or triples in a fixed order and applies one step
 * to each; each function here does the same from a given position on, so
 * that a loop that has reached that position has left the board the
 * function starts from. The methods of `Puzzle` are proved to leave the
 * board these functions compute, and the lemmas here say what the
 * functions keep: marks are only removed, only from the cells the loop
 * names, every completed grid the marks allowed is still allowed, and a
 * consistent board stays consistent.
 */
module Loops {
  import opened Lists
  import opened Neighbors
  import opened Cells
  import opened Board
  import opened Subsets
  import opened Solutions

  // ---------------------------------------------------------------------
  // process_singles
  // ---------------------------------------------------------------------

  /**
   * The inner loop of the hidden-single search from the `k`-th mark of `p`
   * on: the first mark, in list order, that is hidden.
   */
  function FirstHidden(m: seq<seq<int>>, p: int, k: nat): Option<int>
    requires |m| == 81 && IsPos(p)
  {
    FirstFrom(m[p], HiddenTest(m, p), k)
  }

  /**
   * `FirstHidden` finds the first hidden mark: what it returns is a hidden
   * mark of `p` with no hidden mark before it, and `None` means that no mark
   * of `p` is hidden.
   */
  lemma FirstHiddenSpec(m: seq<seq<int>>, p: int)
    requires |m| == 81 && IsPos(p)
    ensures FirstHidden(m, p, 0).Some? ==>
              exists k :: 0 <= k < |m[p]| && m[p][k] == FirstHidden(m, p, 0).value && IsHidden(m, p, m[p][k]) &&
                forall i :: 0 <= i < k ==> !IsHidden(m, p, m[p][i])
    ensures FirstHidden(m, p, 0).None? ==> forall i :: 0 <= i < |m[p]| ==> !IsHidden(m, p, m[p][i])
  {
    if FirstHidden(m, p, 0).Some? {
      FirstFound(m[p], HiddenTest(m, p), 0);
    } else {
      FirstNone(m[p], HiddenTest(m, p), 0);
    }
  }

  /** The body of the hidden-single loop for the cell `c`. */
  function Collapse(m: seq<seq<int>>, c: int): seq<seq<int>>
    requires |m| == 81 && IsPos(c)
  {
    match FirstHidden(m, c, 0)
    case Some(h) => m[c := [h]]
    case None => m
  }

  /** `for i in multiple_mark_set` from position `i` on. */
  function CollapsedFrom(m: seq<seq<int>>, multi: seq<int>, i: nat): (m': seq<seq<int>>)
    requires |m| == 81 && forall k :: 0 <= k < |multi| ==> IsPos(multi[k])
    ensures |m'| == 81
    decreases |multi| - i
  {
    if i >= |multi| then m else CollapsedFrom(Collapse(m, multi[i]), multi, i + 1)
  }

  /** The first loop of `process_singles` over the cells of `ws` with more than one mark. */
  function HiddenCollapsed(m: seq<seq<int>>, ws: seq<int>): (m': seq<seq<int>>)
    requires |m| == 81 && forall k :: 0 <= k < |ws| ==> IsPos(ws[k])
    ensures |m'| == 81
  {
    FilterCells(ws, HasMoreMarks(m));
    CollapsedFrom(m, Filter(ws, HasMoreMarks(m)), 0)
  }

  /** The board after the naked-single loop, and whether it ran to its end. */
  datatype Placing = Placing(marks: seq<seq<int>>, solved: seq<bool>, ok: bool)

  /**
   * `for i in naked_single_set` from position `i` on: each cell is solved
   * with its first mark, which leaves its peers; a cell with no mark left
   * stops the loop (`PencilMarks[0]` raises IndexError).
   */
  function PlacedFrom(m: seq<seq<int>>, s: seq<bool>, naked: seq<int>, i: nat): (r: Placing)
    requires |m| == 81 && |s| == 81 && forall k :: 0 <= k < |naked| ==> 0 <= naked[k] < 81
    ensures |r.marks| == 81 && |r.solved| == 81
    decreases |naked| - i
  {
    if i >= |naked| then Placing(m, s, true)
    else if m[naked[i]] == [] then Placing(m, s, false)
    else PlacedFrom(Placed(m, naked[i], m[naked[i]][0]), s[naked[i] := true], naked, i + 1)
  }

  /** The naked-single loop over the cells of `ws` down to one mark. */
  function NakedSolved(m: seq<seq<int>>, s: seq<bool>, ws: seq<int>): (r: Placing)
    requires |m| == 81 && |s| == 81 && forall k :: 0 <= k < |ws| ==> IsPos(ws[k])
    ensures |r.marks| == 81 && |r.solved| == 81
  {
    FilterCells(ws, HasOneMark(m));
    PlacedFrom(m, s, Filter(ws, HasOneMark(m)), 0)
  }

  /**
   * The naked-single loop from position `i` on, when every cell still to
   * come holds at most one mark: it only removes marks and only marks cells
   * solved, it solves only cells of the list, a run to the end solves all
   * of them, a consistent board stays consistent, a stopped run left a cell
   * of the list without marks, and every completed grid the marks allowed
   * is still allowed.
   */
  lemma {:induction false} PlacedFromSpec(m: seq<seq<int>>, s: seq<bool>, naked: seq<int>, i: nat, consistent: bool)
    requires WellFormed(m, s) && forall k :: 0 <= k < |naked| ==> 0 <= naked[k] < 81
    requires forall k :: i <= k < |naked| ==> |m[naked[k]]| <= 1
    requires consistent ==> Consistent(m, s)
    ensures var r := PlacedFrom(m, s, naked, i);
            WellFormed(r.marks, r.solved) && Shrinks(m, r.marks) && Grows(s, r.solved) &&
            KeepsSolutions(m, r.marks) &&
            (forall p :: 0 <= p < 81 && r.solved[p] && !s[p] ==> exists k :: i <= k < |naked| && naked[k] == p) &&
            (r.ok ==> forall k :: i <= k < |naked| ==> r.solved[naked[k]]) &&
            (r.ok && consistent ==> Consistent(r.marks, r.solved)) &&
            (!r.ok ==> exists k :: i <= k < |naked| && r.marks[naked[k]] == [])
    decreases |naked| - i
  {
    if i < |naked| && m[naked[i]] != [] {
      var c := naked[i];
      var v := m[c][0];
      var m1, s1 := Placed(m, c, v), s[c := true];
      NakedStep(m, m, s, c, v, consistent);
      NakedKeeps(m, c, v);
      forall k | i + 1 <= k < |naked| ensures |m1[naked[k]]| <= 1 {
        OneMarkStays(m, c, v, naked[k]);
      }
      PlacedFromSpec(m1, s1, naked, i + 1, consistent);
      var r := PlacedFrom(m1, s1, naked, i + 1);
      ShrinksTrans(m, m1, r.marks);
      KeepsTrans(m, m1, r.marks);
      forall p | 0 <= p < 81 && r.solved[p] && !s[p] ensures exists k :: i <= k < |naked| && naked[k] == p {
        if p != c {
          var k :| i + 1 <= k < |naked| && naked[k] == p;
        }
      }
    }
  }

  /** `process_singles(ws)`: the hidden singles, then the naked singles. */
  function SinglesProcessed(m: seq<seq<int>>, s: seq<bool>, ws: seq<int>): (r: Placing)
    requires |m| == 81 && |s| == 81 && forall k :: 0 <= k < |ws| ==> IsPos(ws[k])
    ensures |r.marks| == 81 && |r.solved| == 81
  {
    NakedSolved(HiddenCollapsed(m, ws), s, ws)
  }

  // ---------------------------------------------------------------------
  // reduce_r
  // ---------------------------------------------------------------------

  /**
   * `for cell_tuple in combinations(cells, 2)` from the pair at positions
   * `a`, `b` of `cells` on: the pair `(a, b + 1)` comes next, and after the
   * last partner of `a` the pair `(a + 1, a + 2)`.
   */
  function PairsFrom(m: seq<seq<int>>, kind: Unit, cells: seq<int>, a: int, b: int): (m': seq<seq<int>>)
    requires |m| == 81 && 0 <= a < b
    ensures |m'| == 81
    decreases |cells| - a, |cells| - b, 1
  {
    if a >= |cells| then m
    else if b >= |cells| then PairsFrom(m, kind, cells, a + 1, a + 2)
    else PairThen(m, kind, cells, a, b)
  }

  /** The pair at positions `a`, `b` of `cells`, then the pairs after it. */
  function PairThen(m: seq<seq<int>>, kind: Unit, cells: seq<int>, a: int, b: int): (m': seq<seq<int>>)
    requires |m| == 81 && 0 <= a < b < |cells|
    ensures |m'| == 81
    decreases |cells| - a, |cells| - b, 0
  {
    PairReduce(m, kind, cells, a, b)
  }

  /**
   * The reduction by that pair, then the pairs after it: kept apart from
   * `PairThen` so that two unfoldings of `PairsFrom` stop short of `Reduced`.
   */
  function PairReduce(m: seq<seq<int>>, kind: Unit, cells: seq<int>, a: int, b: int): (m': seq<seq<int>>)
    requires |m| == 81 && 0 <= a < b < |cells|
    ensures |m'| == 81
    decreases |cells| - a, |cells| - b, -1
  {
    PairsFrom(Reduced(m, kind, [cells[a], cells[b]], 2), kind, cells, a, b + 1)
  }

  /**
   * `for cell_tuple in combinations(cells, 3)` from the triple at positions
   * `a`, `b`, `c` of `cells` on, in lexicographic order.
   */
  function TriplesFrom(m: seq<seq<int>>, kind: Unit, cells: seq<int>, a: int, b: int, c: int): (m': seq<seq<int>>)
    requires |m| == 81 && 0 <= a < b < c
    ensures |m'| == 81
    decreases |cells| - a, |cells| - b, |cells| - c, 1
  {
    if a >= |cells| then m
    else if b >= |cells| then TriplesFrom(m, kind, cells, a + 1, a + 2, a + 3)
    else if c >= |cells| then TriplesFrom(m, kind, cells, a, b + 1, b + 2)
    else TripleThen(m, kind, cells, a, b, c)
  }

  /** The triple at positions `a`, `b`, `c` of `cells`, then the triples after it. */
  function TripleThen(m: seq<seq<int>>, kind: Unit, cells: seq<int>, a: int, b: int, c: int): (m': seq<seq<int>>)
    requires |m| == 81 && 0 <= a < b < c < |cells|
    ensures |m'| == 81
    decreases |cells| - a, |cells| - b, |cells| - c, 0
  {
    TripleReduce(m, kind, cells, a, b, c)
  }

  /**
   * The reduction by that triple, then the triples after it: kept apart from
   * `TripleThen` so that two unfoldings of `TriplesFrom` stop short of `Reduced`.
   */
  function TripleReduce(m: seq<seq<int>>, kind: Unit, cells: seq<int>, a: int, b: int, c: int): (m': seq<seq<int>>)
    requires |m| == 81 && 0 <= a < b < c < |cells|
    ensures |m'| == 81
    decreases |cells| - a, |cells| - b, |cells| - c, -1
  {
    TriplesFrom(Reduced(m, kind, [cells[a], cells[b], cells[c]], 3), kind, cells, a, b, c + 1)
  }

  /** Two reductions within `cells` in a row are a reduction within `cells`. */
  lemma ReductionTrans(m0: seq<seq<int>>, m1: seq<seq<int>>, m2: seq<seq<int>>, cells: seq<int>)
    requires |m0| == 81 && |m1| == 81 && |m2| == 81
    requires Shrinks(m0, m1) && ChangedWithin(m0, m1, cells) && KeepsSolutions(m0, m1)
    requires Shrinks(m1, m2) && ChangedWithin(m1, m2, cells) && KeepsSolutions(m1, m2)
    ensures Shrinks(m0, m2) && ChangedWithin(m0, m2, cells) && KeepsSolutions(m0, m2)
  {
    ShrinksTrans(m0, m1, m2);
    ChangedTrans(m0, m1, m2, cells);
    KeepsTrans(m0, m1, m2);
  }

  /** The cells of `cells` are positions in unit `u` of kind `kind`. */
  predicate InUnitAll(kind: Unit, u: int, cells: seq<int>)
  {
    forall i :: 0 <= i < |cells| ==> 0 <= cells[i] < 81 && UnitIndex(kind, cells[i]) == u
  }

  /**
   * The subset rule on a tuple `t` of cells of one unit only removes marks,
   * of the cells of `t` alone, and keeps every completed grid the marks allow.
   */
  lemma TupleSpec(m: seq<seq<int>>, s: seq<bool>, kind: Unit, u: int, cells: seq<int>, t: seq<int>, r: int)
    requires WellFormed(m, s) && InUnitAll(kind, u, cells) && |t| == r > 0
    requires forall i :: 0 <= i < |t| ==> t[i] in cells
    ensures WellFormed(Reduced(m, kind, t, r), s) && Shrinks(m, Reduced(m, kind, t, r))
    ensures ChangedWithin(m, Reduced(m, kind, t, r), cells) && KeepsSolutions(m, Reduced(m, kind, t, r))
  {
    forall i | 0 <= i < |t| ensures 0 <= t[i] < 81 && UnitIndex(kind, t[i]) == u {
      var j :| 0 <= j < |cells| && cells[j] == t[i];
    }
    ReducedSpec(m, s, kind, t, r);
    ReducedKeeps(m, s, kind, t, r);
  }

  /**
   * The pairs of a unit's cells only remove marks, of those cells alone,
   * and keep every completed grid the marks allow.
   */
  lemma {:induction false} PairsFromSpec(m: seq<seq<int>>, s: seq<bool>, kind: Unit, u: int, cells: seq<int>, a: int, b: int)
    requires WellFormed(m, s) && InUnitAll(kind, u, cells) && 0 <= a < b
    ensures WellFormed(PairsFrom(m, kind, cells, a, b), s) && Shrinks(m, PairsFrom(m, kind, cells, a, b))
    ensures ChangedWithin(m, PairsFrom(m, kind, cells, a, b), cells)
    ensures KeepsSolutions(m, PairsFrom(m, kind, cells, a, b))
    decreases |cells| - a, |cells| - b, 1
  {
    if a >= |cells| {
    } else if b >= |cells| {
      PairsFromSpec(m, s, kind, u, cells, a + 1, a + 2);
    } else {
      var m1 := PairReduced(m, s, kind, u, cells, a, b);
      PairsFromSpec(m1, s, kind, u, cells, a, b + 1);
      ReductionTrans(m, m1, PairsFrom(m1, kind, cells, a, b + 1), cells);
    }
  }

  /** The board after the reduction by the pair at `a`, `b`, named so that its facts do not mention `Reduced`. */
  lemma PairReduced(m: seq<seq<int>>, s: seq<bool>, kind: Unit, u: int, cells: seq<int>, a: int, b: int) returns (m1: seq<seq<int>>)
    requires WellFormed(m, s) && InUnitAll(kind, u, cells) && 0 <= a < b < |cells|
    ensures WellFormed(m1, s) && Shrinks(m, m1) && ChangedWithin(m, m1, cells) && KeepsSolutions(m, m1)
    ensures PairsFrom(m, kind, cells, a, b) == PairsFrom(m1, kind, cells, a, b + 1)
  {
    var t := [cells[a], cells[b]];
    assert cells[a] in cells && cells[b] in cells;
    TupleSpec(m, s, kind, u, cells, t, 2);
    m1 := Reduced(m, kind, t, 2);
    assert PairReduce(m, kind, cells, a, b) == PairsFrom(m1, kind, cells, a, b + 1);
  }

  /**
   * The triples of a unit's cells only remove marks, of those cells alone,
   * and keep every completed grid the marks allow.
   */
  lemma {:induction false} TriplesFromSpec(m: seq<seq<int>>, s: seq<bool>, kind: Unit, u: int, cells: seq<int>, a: int, b: int, c: int)
    requires WellFormed(m, s) && InUnitAll(kind, u, cells) && 0 <= a < b < c
    ensures WellFormed(TriplesFrom(m, kind, cells, a, b, c), s) && Shrinks(m, TriplesFrom(m, kind, cells, a, b, c))
    ensures ChangedWithin(m, TriplesFrom(m, kind, cells, a, b, c), cells)
    ensures KeepsSolutions(m, TriplesFrom(m, kind, cells, a, b, c))
    decreases |cells| - a, |cells| - b, |cells| - c, 1
  {
    if a >= |cells| {
    } else if b >= |cells| {
      TriplesFromSpec(m, s, kind, u, cells, a + 1, a + 2, a + 3);
    } else if c >= |cells| {
      TriplesFromSpec(m, s, kind, u, cells, a, b + 1, b + 2);
    } else {
      var m1 := TripleReduced(m, s, kind, u, cells, a, b, c);
      TriplesFromSpec(m1, s, kind, u, cells, a, b, c + 1);
      ReductionTrans(m, m1, TriplesFrom(m1, kind, cells, a, b, c + 1), cells);
    }
  }

  /** The board after the reduction by the triple at `a`, `b`, `c`, named so that its facts do not mention `Reduced`. */
  lemma TripleReduced(m: seq<seq<int>>, s: seq<bool>, kind: Unit, u: int, cells: seq<int>, a: int, b: int, c: int) returns (m1: seq<seq<int>>)
    requires WellFormed(m, s) && InUnitAll(kind, u, cells) && 0 <= a < b < c < |cells|
    ensures WellFormed(m1, s) && Shrinks(m, m1) && ChangedWithin(m, m1, cells) && KeepsSolutions(m, m1)
    ensures TriplesFrom(m, kind, cells, a, b, c) == TriplesFrom(m1, kind, cells, a, b, c + 1)
  {
    var t := [cells[a], cells[b], cells[c]];
    assert cells[a] in cells && cells[b] in cells && cells[c] in cells;
    TupleSpec(m, s, kind, u, cells, t, 3);
    m1 := Reduced(m, kind, t, 3);
    assert TripleReduce(m, kind, cells, a, b, c) == TriplesFrom(m1, kind, cells, a, b, c + 1);
  }

  /**
   * One unit of `reduce_r`: `working_row` (or its column or grid copy), the
   * cells of `ws` in unit `u` of kind `kind` with more than one mark, and
   * every tuple of `r` of them.
   */
  function UnitReduced(m: seq<seq<int>>, kind: Unit, u: int, ws: seq<int>, r: int): (m': seq<seq<int>>)
    requires |m| == 81 && (r == 2 || r == 3)
    ensures |m'| == 81
  {
    var cells := Filter(ws, InUnit(kind, u, m));
    if r == 2 then PairsFrom(m, kind, cells, 0, 1) else TriplesFrom(m, kind, cells, 0, 1, 2)
  }

  /** How many units of the same index `reduce_r` examines after one of kind `kind`. */
  function Later(kind: Unit): nat
  {
    match kind
    case Row => 2
    case Column => 1
    case Box => 0
  }

  /**
   * `for i in range(9)` of `reduce_r` from `u` on: row `u`, column `u` and
   * box `u`, then the next index; after the last one, the pointing pairs.
   */
  function UnitsFrom(m: seq<seq<int>>, ws: seq<int>, r: int, u: int): (m': seq<seq<int>>)
    requires |m| == 81 && (r == 2 || r == 3) && 0 <= u
    ensures |m'| == 81
    decreases 9 - u, 3
  {
    if u >= 9 then PointedFrom(m, ws, 0, 1) else UnitThen(m, ws, r, u, Row)
  }

  /** Unit `u` of kind `kind`, then the units after it. */
  function UnitThen(m: seq<seq<int>>, ws: seq<int>, r: int, u: int, kind: Unit): (m': seq<seq<int>>)
    requires |m| == 81 && (r == 2 || r == 3) && 0 <= u < 9
    ensures |m'| == 81
    decreases 9 - u, Later(kind)
  {
    var m1 := UnitReduced(m, kind, u, ws, r);
    match kind
    case Row => UnitThen(m1, ws, r, u, Column)
    case Column => UnitThen(m1, ws, r, u, Box)
    case Box => UnitsFrom(m1, ws, r, u + 1)
  }

  /** The test of `neighbor_pairs`: the two cells share a box, and a row or a column. */
  predicate Aligned(a: int, b: int)
  {
    (RowOf(a) == RowOf(b) || ColumnOf(a) == ColumnOf(b)) && BoxOf(a) == BoxOf(b)
  }

  /**
   * `process_pointing_pairs` from the pair at positions `i`, `j` of `ws`
   * on: the pairs of `combinations(ws, 2)` in lexicographic order, each
   * examined when it is aligned.
   */
  function PointedFrom(m: seq<seq<int>>, ws: seq<int>, i: int, j: int): (m': seq<seq<int>>)
    requires |m| == 81 && 0 <= i < j
    ensures |m'| == 81
    decreases |ws| - i, |ws| - j
  {
    if i >= |ws| then m
    else if j >= |ws| then PointedFrom(m, ws, i + 1, i + 2)
    else if Aligned(ws[i], ws[j]) then PointedFrom(Pointed(m, ws[i], ws[j]), ws, i, j + 1)
    else PointedFrom(m, ws, i, j + 1)
  }

  /** `reduce_r(ws, r)`: every row, column and box, then the pointing pairs. */
  function ReducedAll(m: seq<seq<int>>, ws: seq<int>, r: int): (m': seq<seq<int>>)
    requires |m| == 81 && (r == 2 || r == 3)
    ensures |m'| == 81
  {
    UnitsFrom(m, ws, r, 0)
  }

  /**
   * Lines 120 to 132 of `solve`: `reduce_r` with pairs over the unsolved
   * cells and, unless that left new singles, `reduce_r` with triples over
   * the same cells.
   */
  function Reduction(m: seq<seq<int>>, s: seq<bool>): (m': seq<seq<int>>)
    requires |m| == 81 && |s| == 81
    ensures |m'| == 81
  {
    var m2 := ReducedAll(m, Unsolved(s), 2);
    if Singles(m2, s) != [] then m2 else ReducedAll(m2, Unsolved(s), 3)
  }

  /**
   * The pointing-pair loop only removes marks, keeps every completed grid
   * the marks allow, and keeps a consistent board consistent.
   */
  lemma {:induction false} PointedFromSpec(m: seq<seq<int>>, s: seq<bool>, ws: seq<int>, i: int, j: int)
    requires WellFormed(m, s) && 0 <= i < j && forall k :: 0 <= k < |ws| ==> IsPos(ws[k])
    ensures WellFormed(PointedFrom(m, ws, i, j), s) && Shrinks(m, PointedFrom(m, ws, i, j))
    ensures KeepsSolutions(m, PointedFrom(m, ws, i, j))
    ensures Consistent(m, s) ==> Consistent(PointedFrom(m, ws, i, j), s)
    decreases |ws| - i, |ws| - j
  {
    if i >= |ws| {
    } else if j >= |ws| {
      PointedFromSpec(m, s, ws, i + 1, i + 2);
    } else if Aligned(ws[i], ws[j]) {
      var m1 := Pointed(m, ws[i], ws[j]);
      PointedSpec(m, s, ws[i], ws[j]);
      PointedKeeps(m, s, ws[i], ws[j]);
      if Consistent(m, s) {
        PointedConsistent(m, s, ws[i], ws[j]);
      }
      PointedFromSpec(m1, s, ws, i, j + 1);
      ShrinksTrans(m, m1, PointedFrom(m1, ws, i, j + 1));
      KeepsTrans(m, m1, PointedFrom(m1, ws, i, j + 1));
    } else {
      PointedFromSpec(m, s, ws, i, j + 1);
    }
  }
}
