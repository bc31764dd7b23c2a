/**
 * The subset rules of `reduce_r` and `process_pointing_pairs` as functions
 * on the board's marks, with the facts the solver's loop relies on: they
 * only remove marks, they only touch the cells they name, and they keep a
 * consistent board consistent.
 */
module Subsets {
  import opened Lists
  import opened Neighbors
  import opened Cells
  import opened Board

  /** `shared_marks`: every mark held by a cell of the tuple `t`. */
  function Shared(m: seq<seq<int>>, t: seq<int>): set<int>
  {
    MarksOf(m, Elements(t))
  }

  /** `exclusive_marks`: the marks of `t` that no mutual neighbour of `t` in the unit `kind` holds. */
  function Exclusive(m: seq<seq<int>>, kind: Unit, t: seq<int>): set<int>
    requires |t| > 0
  {
    Shared(m, t) - MarksOf(m, Mutual(kind, t))
  }

  /**
   * The marks after `reduce_r` has examined the tuple `t` of a unit `kind`:
   * when exactly `r` marks of `t` occur nowhere else in the unit and `t`
   * holds other marks too, those other marks leave every cell of `t`.
   * (The other branch, which clears the shared marks from the mutual
   * neighbours, removes nothing: see `ElseBranchInert`.)
   */
  function Reduced(m: seq<seq<int>>, kind: Unit, t: seq<int>, r: int): (m': seq<seq<int>>)
    requires |m| == 81 && |t| > 0
    ensures |m'| == 81
  {
    var shared, exclusive := Shared(m, t), Exclusive(m, kind, t);
    if |exclusive| == r && |shared| > |exclusive| then Pruned(m, Elements(t), shared - exclusive) else m
  }

  /**
   * The marks after `process_pointing_pairs` has examined the pair `a`,
   * `b`: when exactly one of their marks occurs nowhere else in their box,
   * it leaves the other cells of their row, or else of their column.
   */
  function Pointed(m: seq<seq<int>>, a: int, b: int): (m': seq<seq<int>>)
    requires |m| == 81
    ensures |m'| == 81
  {
    var exclusive := Exclusive(m, Box, [a, b]);
    if |exclusive| == 1 && RowOf(a) == RowOf(b) then Pruned(m, Mutual(Row, [a, b]), exclusive)
    else if |exclusive| == 1 && ColumnOf(a) == ColumnOf(b) then Pruned(m, Mutual(Column, [a, b]), exclusive)
    else m
  }

  /** The test of `working_row` (and of its column and grid copies): in unit `u` of kind `kind`, with more than one mark. */
  function InUnit(kind: Unit, u: int, m: seq<seq<int>>): int -> bool
  {
    x => UnitIndex(kind, x) == u && 0 <= x < |m| && |m[x]| > 1
  }

  /** The mutual neighbours of a tuple are board cells. */
  lemma MutualCells(kind: Unit, t: seq<int>)
    requires |t| > 0 && IsPos(t[0])
    ensures forall x :: x in Mutual(kind, t) ==> IsPos(x)
  {
    UnitNeighborsSpec(kind, t[0]);
  }

  /**
   * The `else` branch of `reduce_r`: when the exclusive marks are all the
   * shared marks, clearing the shared marks from the mutual neighbours
   * changes nothing.
   */
  lemma {:induction false} ElseBranchInert(m: seq<seq<int>>, kind: Unit, t: seq<int>, r: int)
    requires |m| == 81 && |t| > 0
    requires |Exclusive(m, kind, t)| == r && |Shared(m, t)| <= r
    ensures Pruned(m, Mutual(kind, t), Shared(m, t)) == m
  {
    HiddenSubsetInert(m, Shared(m, t), Mutual(kind, t));
    PrunedInert(m, Mutual(kind, t), Shared(m, t));
  }

  /** The three outcomes of a tuple step, each as the pruning `reduce_r` performs. */
  lemma ReducedBranches(m: seq<seq<int>>, kind: Unit, t: seq<int>, r: int)
    requires |m| == 81 && |t| > 0
    ensures |Exclusive(m, kind, t)| == r && |Shared(m, t)| > r ==>
              Reduced(m, kind, t, r) == Pruned(m, Elements(t), Shared(m, t) - Exclusive(m, kind, t))
    ensures |Exclusive(m, kind, t)| == r && |Shared(m, t)| <= r ==>
              Reduced(m, kind, t, r) == Pruned(m, Mutual(kind, t), Shared(m, t))
    ensures |Exclusive(m, kind, t)| != r ==> Reduced(m, kind, t, r) == m
  {
    var shared, exclusive := Shared(m, t), Exclusive(m, kind, t);
    if |exclusive| == r && |shared| > r {
      assert Reduced(m, kind, t, r) == Pruned(m, Elements(t), shared - exclusive);
    } else if |exclusive| == r {
      ElseBranchInert(m, kind, t, r);
      assert Reduced(m, kind, t, r) == m;
    } else {
      assert Reduced(m, kind, t, r) == m;
    }
  }

  /** A tuple step only removes marks, and only from the cells of the tuple. */
  lemma {:induction false} ReducedSpec(m: seq<seq<int>>, s: seq<bool>, kind: Unit, t: seq<int>, r: int)
    requires WellFormed(m, s) && |t| > 0
    ensures WellFormed(Reduced(m, kind, t, r), s) && Shrinks(m, Reduced(m, kind, t, r))
    ensures ChangedWithin(m, Reduced(m, kind, t, r), t)
  {
    PrunedShrinks(m, s, Elements(t), Shared(m, t) - Exclusive(m, kind, t));
  }

  /**
   * When the hidden-subset branch fires, each cell of the tuple keeps
   * exactly those of its marks that are exclusive to the tuple.
   */
  lemma {:induction false} ReducedMarks(m: seq<seq<int>>, s: seq<bool>, kind: Unit, t: seq<int>, r: int, p: int)
    requires WellFormed(m, s) && |t| > 0 && p in t && 0 <= p < 81
    requires |Exclusive(m, kind, t)| == r && |Shared(m, t)| > r
    ensures forall x :: x in Reduced(m, kind, t, r)[p] <==> x in m[p] && x in Exclusive(m, kind, t)
  {
    WithoutSpec(m[p], Shared(m, t) - Exclusive(m, kind, t));
    forall x | x in m[p] ensures x in Shared(m, t) {
      MarksOfHas(m, Elements(t), p, x);
    }
  }

  /** The cells of a line shared by `a` and `b`, other than `a` and `b`, lose only marks. */
  lemma {:induction false} LinePruned(m: seq<seq<int>>, s: seq<bool>, kind: Unit, a: int, b: int, drop: set<int>)
    requires WellFormed(m, s) && IsPos(a) && IsPos(b) && UnitIndex(kind, a) == UnitIndex(kind, b)
    ensures WellFormed(Pruned(m, Mutual(kind, [a, b]), drop), s) && Shrinks(m, Pruned(m, Mutual(kind, [a, b]), drop))
    ensures forall p :: 0 <= p < 81 && Pruned(m, Mutual(kind, [a, b]), drop)[p] != m[p] ==>
              p != a && p != b && UnitIndex(kind, p) == UnitIndex(kind, a)
  {
    PrunedShrinks(m, s, Mutual(kind, [a, b]), drop);
    PairMutual(kind, a, b);
  }

  /** A pair step only removes marks, and only from cells of the pair's row or column other than the pair. */
  lemma {:induction false} PointedSpec(m: seq<seq<int>>, s: seq<bool>, a: int, b: int)
    requires WellFormed(m, s) && IsPos(a) && IsPos(b)
    ensures WellFormed(Pointed(m, a, b), s) && Shrinks(m, Pointed(m, a, b))
    ensures forall p :: 0 <= p < 81 && Pointed(m, a, b)[p] != m[p] ==>
              p != a && p != b && (RowOf(p) == RowOf(a) == RowOf(b) || ColumnOf(p) == ColumnOf(a) == ColumnOf(b))
  {
    var exclusive := Exclusive(m, Box, [a, b]);
    if |exclusive| == 1 && RowOf(a) == RowOf(b) {
      LinePruned(m, s, Row, a, b, exclusive);
    } else if |exclusive| == 1 && ColumnOf(a) == ColumnOf(b) {
      LinePruned(m, s, Column, a, b, exclusive);
    }
  }

  /** A set of one element that holds `x` is `{x}`. */
  lemma SingletonSet(e: set<int>, x: int)
    requires |e| == 1 && x in e
    ensures e == {x}
  {
    assert |e - {x}| == 0;
  }

  /** A mark that pruning takes from a cell is one of the dropped marks. */
  lemma PrunedDrops(m: seq<seq<int>>, cells: set<int>, drop: set<int>, p: int, x: int)
    requires |m| == 81 && 0 <= p < 81 && x in m[p] && x !in Pruned(m, cells, drop)[p]
    ensures x in drop
  {
  }

  /** A pair step removes a mark only when it is the one mark of the pair exclusive to their box. */
  lemma {:induction false} PointedRemoves(m: seq<seq<int>>, a: int, b: int, p: int, x: int)
    requires |m| == 81 && 0 <= p < 81 && x in m[p] && x !in Pointed(m, a, b)[p]
    ensures Exclusive(m, Box, [a, b]) == {x}
  {
    var exclusive := Exclusive(m, Box, [a, b]);
    if |exclusive| == 1 && RowOf(a) == RowOf(b) {
      PrunedDrops(m, Mutual(Row, [a, b]), exclusive, p, x);
      SingletonSet(exclusive, x);
    } else if |exclusive| == 1 && ColumnOf(a) == ColumnOf(b) {
      PrunedDrops(m, Mutual(Column, [a, b]), exclusive, p, x);
      SingletonSet(exclusive, x);
    } else {
      assert false;
    }
  }

  /**
   * Clearing marks of `a` and `b` from the other cells of a unit they share
   * keeps a consistent board consistent: a solved cell there is a peer of
   * both, so its value is not among their marks.
   */
  lemma {:induction false} LineConsistent(m: seq<seq<int>>, s: seq<bool>, kind: Unit, a: int, b: int, drop: set<int>)
    requires WellFormed(m, s) && Consistent(m, s) && IsPos(a) && IsPos(b) && UnitIndex(kind, a) == UnitIndex(kind, b)
    requires drop <= Shared(m, [a, b])
    ensures Consistent(Pruned(m, Mutual(kind, [a, b]), drop), s)
  {
    var line := Mutual(kind, [a, b]);
    PairMutual(kind, a, b);
    forall p | 0 <= p < 81 && s[p] && p in line ensures m[p][0] !in drop {
      assert Peers(p, a) && Peers(p, b);
      SolvedNotShared(m, s, a, b, p);
    }
    PrunedConsistent(m, s, line, drop);
  }

  /** On a consistent board, a solved cell that is a peer of `a` and of `b` has a value neither of them holds. */
  lemma SolvedNotShared(m: seq<seq<int>>, s: seq<bool>, a: int, b: int, p: int)
    requires WellFormed(m, s) && Consistent(m, s) && IsPos(a) && IsPos(b) && IsPos(p) && s[p]
    requires Peers(p, a) && Peers(p, b)
    ensures m[p][0] !in Shared(m, [a, b])
  {
    MarksOfSpec(m, Elements([a, b]));
  }

  /** The exclusive marks of a tuple are among its shared marks. */
  lemma ExclusiveShared(m: seq<seq<int>>, kind: Unit, t: seq<int>)
    requires |t| > 0
    ensures Exclusive(m, kind, t) <= Shared(m, t)
  {
  }

  /** A pair step keeps a consistent board consistent. */
  lemma {:induction false} PointedConsistent(m: seq<seq<int>>, s: seq<bool>, a: int, b: int)
    requires WellFormed(m, s) && Consistent(m, s) && IsPos(a) && IsPos(b)
    ensures Consistent(Pointed(m, a, b), s)
  {
    var exclusive := Exclusive(m, Box, [a, b]);
    ExclusiveShared(m, Box, [a, b]);
    if |exclusive| == 1 && RowOf(a) == RowOf(b) {
      LineConsistent(m, s, Row, a, b, exclusive);
    } else if |exclusive| == 1 && ColumnOf(a) == ColumnOf(b) {
      LineConsistent(m, s, Column, a, b, exclusive);
    }
  }
}
