/**
 * What the solving rules preserve: every completed grid that the pencil
 * marks still allow. Each rule removes only marks that no such grid uses,
 * so the grid `solve` returns is the only one the clues admit, and an
 * emptied cell shows that the clues admit none.
 */
module Solutions {
  import opened Lists
  import opened Neighbors
  import opened Cells
  import opened Board
  import opened Subsets

  /** Every cell's value in the grid `v` is still among the cell's marks. */
  ghost predicate Allows(m: seq<seq<int>>, v: seq<int>)
  {
    |m| == 81 && |v| == 81 && forall p :: 0 <= p < 81 ==> v[p] in m[p]
  }

  /** Every completed grid that `m0` allows, `m1` allows too. */
  ghost predicate KeepsSolutions(m0: seq<seq<int>>, m1: seq<seq<int>>)
  {
    forall v {:trigger Allows(m1, v)} :: IsGrid(v) && Allows(m0, v) ==> Allows(m1, v)
  }

  /** The grid `v` has the value of every clue of `seed` on its cell. */
  ghost predicate Agrees(seed: seq<Clue>, v: seq<int>)
  {
    |v| == 81 && forall i :: 0 <= i < |seed| && IsPos(ClueCell(seed[i])) ==> v[ClueCell(seed[i])] == seed[i].value
  }

  lemma KeepsTrans(m0: seq<seq<int>>, m1: seq<seq<int>>, m2: seq<seq<int>>)
    requires KeepsSolutions(m0, m1) && KeepsSolutions(m1, m2)
    ensures KeepsSolutions(m0, m2)
  {
  }

  /** A list without repeats has as many elements as entries. */
  lemma {:induction false} DistinctCount(s: seq<int>)
    requires Distinct(s)
    ensures |Elements(s)| == |s|
  {
    if s != [] {
      DistinctCount(s[1..]);
      assert Elements(s) == {s[0]} + Elements(s[1..]);
      assert s[0] !in Elements(s[1..]);
    }
  }

  /** The nine digits form a set of nine. */
  lemma DigitSet()
    ensures |Elements(Digits())| == 9
    ensures forall x :: x in Elements(Digits()) <==> 1 <= x <= 9
  {
    DigitsSpec();
    DistinctCount(Digits());
  }

  /** Two different cells of one unit are peers. */
  lemma UnitPeers(kind: Unit, p: int, q: int)
    requires p != q && UnitIndex(kind, p) == UnitIndex(kind, q)
    ensures Peers(p, q)
  {
  }

  /** The nine cells of the unit of `p`: `p` and its unit neighbours. */
  lemma {:induction false} UnitCells(kind: Unit, p: int)
    requires IsPos(p)
    ensures |[p] + UnitNeighbors(kind, p)| == 9 && Distinct([p] + UnitNeighbors(kind, p))
    ensures forall x :: x in [p] + UnitNeighbors(kind, p) <==> IsPos(x) && UnitIndex(kind, x) == UnitIndex(kind, p)
  {
    UnitNeighborsSpec(kind, p);
    forall i | 0 <= i < |[p]| ensures [p][i] !in UnitNeighbors(kind, p) {
    }
    DistinctJoin([p], UnitNeighbors(kind, p));
  }

  /** Every row, column and box of a completed grid holds every digit. */
  lemma {:induction false} EveryDigit(v: seq<int>, kind: Unit, p: int, x: int)
    requires IsGrid(v) && IsPos(p) && 1 <= x <= 9
    ensures exists q :: IsPos(q) && UnitIndex(kind, q) == UnitIndex(kind, p) && v[q] == x
  {
    var cells := [p] + UnitNeighbors(kind, p);
    UnitCells(kind, p);
    forall i | 0 <= i < 9 ensures IsPos(cells[i]) && UnitIndex(kind, cells[i]) == UnitIndex(kind, p) {
      assert cells[i] in cells;
    }
    var values := seq(9, i requires 0 <= i < 9 => v[cells[i]]);
    forall i, j | 0 <= i < j < 9 ensures values[i] != values[j] {
      UnitPeers(kind, cells[i], cells[j]);
    }
    DistinctCount(values);
    DigitSet();
    forall y | y in Elements(values) ensures y in Elements(Digits()) {
      var i :| 0 <= i < 9 && values[i] == y;
    }
    SubsetAsLarge(Elements(values), Elements(Digits()));
    assert x in Elements(values);
    var i :| 0 <= i < 9 && values[i] == x;
    assert IsPos(cells[i]) && UnitIndex(kind, cells[i]) == UnitIndex(kind, p) && v[cells[i]] == x;
  }

  /**
   * A digit that no cell of `others` holds, where `others` has every cell of
   * the unit of `t` outside `t`, is the value of a cell of `t`.
   */
  lemma {:induction false} OnlyHolders(m: seq<seq<int>>, v: seq<int>, kind: Unit, t: seq<int>, x: int, others: set<int>)
    requires IsGrid(v) && Allows(m, v) && |t| > 0 && 1 <= x <= 9
    requires forall i :: 0 <= i < |t| ==> 0 <= t[i] < 81
    requires forall q :: IsPos(q) && UnitIndex(kind, q) == UnitIndex(kind, t[0]) && q !in t ==> q in others
    requires x !in MarksOf(m, others)
    ensures exists i :: 0 <= i < |t| && v[t[i]] == x
  {
    EveryDigit(v, kind, t[0], x);
    var q :| IsPos(q) && UnitIndex(kind, q) == UnitIndex(kind, t[0]) && v[q] == x;
    if q !in t {
      MarksOfHas(m, others, q, x);
    }
    var i :| 0 <= i < |t| && t[i] == q;
  }

  /** A mark the marks of `t` share lies in 1..9. */
  lemma SharedDigit(m: seq<seq<int>>, s: seq<bool>, t: seq<int>, x: int)
    requires WellFormed(m, s) && x in Shared(m, t)
    ensures 1 <= x <= 9
  {
    MarksOfSpec(m, Elements(t));
    var k :| k in Elements(t) && 0 <= k < |m| && x in m[k];
    var i :| 0 <= i < |m[k]| && m[k][i] == x;
  }

  /** A cell down to the single mark `x` has the value `x` in every grid the marks allow. */
  lemma NakedValue(m: seq<seq<int>>, v: seq<int>, c: int, x: int)
    requires Allows(m, v) && IsPos(c) && m[c] == [x]
    ensures v[c] == x
  {
    assert v[c] in m[c];
  }

  /** Placing the only mark of a cell keeps every grid the marks allow. */
  lemma {:induction false} NakedKeeps(m: seq<seq<int>>, c: int, x: int)
    requires |m| == 81 && IsPos(c) && m[c] == [x]
    ensures KeepsSolutions(m, Placed(m, c, x))
  {
    var m1 := Placed(m, c, x);
    forall v | IsGrid(v) && Allows(m, v) ensures Allows(m1, v) {
      NakedValue(m, v, c, x);
      forall p | 0 <= p < 81 ensures v[p] in m1[p] {
        if p != c && Peers(c, p) {
          var y := v[p];
          assert y in m[p] && y != x;
          assert multiset(m[p])[y] > 0;
          assert multiset(m1[p]) == multiset(m[p]) - multiset{x};
          assert multiset(m1[p])[y] > 0;
        }
      }
    }
  }

  /** A mark that no other cell of one unit of `p` holds is `p`'s value in every grid the marks allow. */
  lemma {:induction false} HiddenInUnit(m: seq<seq<int>>, v: seq<int>, kind: Unit, p: int, j: int)
    requires IsGrid(v) && Allows(m, v) && IsPos(p) && 1 <= j <= 9 && Absent(m, j, UnitNeighbors(kind, p))
    ensures v[p] == j
  {
    NeighborsLack(m, v, kind, p, j);
    EveryDigit(v, kind, p, j);
  }

  /** In an allowed grid, no other cell of a unit of `p` has a value that its marks lack. */
  lemma {:induction false} NeighborsLack(m: seq<seq<int>>, v: seq<int>, kind: Unit, p: int, j: int)
    requires Allows(m, v) && IsPos(p) && Absent(m, j, UnitNeighbors(kind, p))
    ensures forall q :: IsPos(q) && UnitIndex(kind, q) == UnitIndex(kind, p) && q != p ==> v[q] != j
  {
    var cells := UnitNeighbors(kind, p);
    UnitNeighborsSpec(kind, p);
    forall q | IsPos(q) && UnitIndex(kind, q) == UnitIndex(kind, p) && q != p ensures v[q] != j {
      var i :| 0 <= i < |cells| && cells[i] == q;
      assert v[q] in m[q];
    }
  }

  /** A hidden single of `p` is `p`'s value in every grid the marks allow. */
  lemma HiddenValue(m: seq<seq<int>>, v: seq<int>, p: int, j: int)
    requires IsGrid(v) && Allows(m, v) && IsPos(p) && 1 <= j <= 9 && IsHidden(m, p, j)
    ensures v[p] == j
  {
    if Absent(m, j, RowNeighbors(p)) {
      HiddenInUnit(m, v, Row, p, j);
    } else if Absent(m, j, ColumnNeighbors(p)) {
      HiddenInUnit(m, v, Column, p, j);
    } else {
      HiddenInUnit(m, v, Box, p, j);
    }
  }

  /** Collapsing a cell to its hidden single keeps every grid the marks allow. */
  lemma {:induction false} HiddenKeeps(m: seq<seq<int>>, s: seq<bool>, p: int, j: int)
    requires WellFormed(m, s) && IsPos(p) && j in m[p] && IsHidden(m, p, j)
    ensures KeepsSolutions(m, m[p := [j]])
  {
    var k :| 0 <= k < |m[p]| && m[p][k] == j;
    forall v | IsGrid(v) && Allows(m, v) ensures Allows(m[p := [j]], v) {
      HiddenValue(m, v, p, j);
    }
  }

  /** The values a grid has on the cells of `t`. */
  function CellValues(v: seq<int>, t: seq<int>): (r: set<int>)
    requires forall i :: 0 <= i < |t| ==> 0 <= t[i] < |v|
    ensures |r| <= |t|
    ensures forall i :: 0 <= i < |t| ==> v[t[i]] in r
    ensures forall x :: x in r ==> exists i :: 0 <= i < |t| && v[t[i]] == x
  {
    if t == [] then {}
    else
      var rest := CellValues(v, t[1..]);
      assert forall i :: 1 <= i < |t| ==> t[i] == t[1..][i - 1];
      {v[t[0]]} + rest
  }

  /** The `r` marks only the `r` cells of `t` hold in their unit are the values of those cells in an allowed grid. */
  lemma {:induction false} ReducedAllows(m: seq<seq<int>>, s: seq<bool>, kind: Unit, t: seq<int>, r: int, v: seq<int>)
    requires WellFormed(m, s) && |t| == r > 0 && IsGrid(v) && Allows(m, v)
    requires forall i :: 0 <= i < |t| ==> 0 <= t[i] < 81 && UnitIndex(kind, t[i]) == UnitIndex(kind, t[0])
    requires |Exclusive(m, kind, t)| == r
    ensures forall i :: 0 <= i < |t| ==> v[t[i]] in Exclusive(m, kind, t)
  {
    var exclusive, mutual := Exclusive(m, kind, t), Mutual(kind, t);
    var taken := CellValues(v, t);
    MutualSpec(kind, t);
    forall x | x in exclusive ensures x in taken {
      SharedDigit(m, s, t, x);
      OnlyHolders(m, v, kind, t, x, mutual);
    }
    SubsetAsLarge(exclusive, taken);
  }

  /**
   * The subset rule of `reduce_r` keeps every grid the marks allow: the `r`
   * marks that only the `r` cells of `t` hold in their unit are the values
   * of those cells, so the other marks of those cells are not.
   */
  lemma {:induction false} ReducedKeeps(m: seq<seq<int>>, s: seq<bool>, kind: Unit, t: seq<int>, r: int)
    requires WellFormed(m, s) && |t| == r > 0
    requires forall i :: 0 <= i < |t| ==> 0 <= t[i] < 81 && UnitIndex(kind, t[i]) == UnitIndex(kind, t[0])
    ensures KeepsSolutions(m, Reduced(m, kind, t, r))
  {
    var shared, exclusive := Shared(m, t), Exclusive(m, kind, t);
    if |exclusive| == r && |shared| > |exclusive| {
      var drop := shared - exclusive;
      var m1 := Pruned(m, Elements(t), drop);
      forall v | IsGrid(v) && Allows(m, v) ensures Allows(m1, v) {
        ReducedAllows(m, s, kind, t, r, v);
        forall p | 0 <= p < 81 ensures v[p] in m1[p] {
          if p in Elements(t) {
            var i :| 0 <= i < |t| && t[i] == p;
            assert v[p] in exclusive;
          }
        }
      }
    }
  }

  /** A mark that only `a` and `b` hold in a unit they share is the value of one of them. */
  lemma {:induction false} PairValue(m: seq<seq<int>>, s: seq<bool>, v: seq<int>, kind: Unit, a: int, b: int, x: int)
    requires WellFormed(m, s) && IsGrid(v) && Allows(m, v)
    requires IsPos(a) && IsPos(b) && UnitIndex(kind, a) == UnitIndex(kind, b)
    requires x in Exclusive(m, kind, [a, b])
    ensures v[a] == x || v[b] == x
  {
    SharedDigit(m, s, [a, b], x);
    PairHolders(m, v, kind, a, b, x);
  }

  /** A digit that none of the other cells of a unit holds is the value of `a` or `b`. */
  lemma {:induction false} PairHolders(m: seq<seq<int>>, v: seq<int>, kind: Unit, a: int, b: int, x: int)
    requires IsGrid(v) && Allows(m, v) && 1 <= x <= 9
    requires IsPos(a) && IsPos(b) && UnitIndex(kind, a) == UnitIndex(kind, b)
    requires x !in MarksOf(m, Mutual(kind, [a, b]))
    ensures v[a] == x || v[b] == x
  {
    OthersLack(m, v, kind, a, b, x);
    EveryDigit(v, kind, a, x);
  }

  /** In an allowed grid, no other cell of the unit of `a` and `b` has a value their mutual neighbours lack. */
  lemma {:induction false} OthersLack(m: seq<seq<int>>, v: seq<int>, kind: Unit, a: int, b: int, x: int)
    requires Allows(m, v) && IsPos(a) && IsPos(b) && UnitIndex(kind, a) == UnitIndex(kind, b)
    requires x !in MarksOf(m, Mutual(kind, [a, b]))
    ensures forall q :: IsPos(q) && UnitIndex(kind, q) == UnitIndex(kind, a) && q != a && q != b ==> v[q] != x
  {
    var mutual := Mutual(kind, [a, b]);
    PairMutual(kind, a, b);
    forall q | IsPos(q) && UnitIndex(kind, q) == UnitIndex(kind, a) && q != a && q != b ensures v[q] != x {
      MarksOfHas(m, mutual, q, v[q]);
    }
  }

  /** A mark that only `a` and `b` hold in their box is not the value of a cell that is a peer of both. */
  lemma {:induction false} PointedAllows(m: seq<seq<int>>, s: seq<bool>, a: int, b: int, v: seq<int>, p: int)
    requires WellFormed(m, s) && IsPos(a) && IsPos(b) && BoxOf(a) == BoxOf(b) && IsGrid(v) && Allows(m, v)
    requires IsPos(p) && Peers(p, a) && Peers(p, b)
    ensures v[p] !in Exclusive(m, Box, [a, b])
  {
    var x := v[p];
    if x in Exclusive(m, Box, [a, b]) {
      PairValue(m, s, v, Box, a, b, x);
      assert false;
    }
  }

  /** Clearing the marks only `a` and `b` hold in their box from the rest of a line they share keeps every allowed grid. */
  lemma {:induction false} LineKeeps(m: seq<seq<int>>, s: seq<bool>, kind: Unit, a: int, b: int)
    requires WellFormed(m, s) && IsPos(a) && IsPos(b) && BoxOf(a) == BoxOf(b) && UnitIndex(kind, a) == UnitIndex(kind, b)
    ensures KeepsSolutions(m, Pruned(m, Mutual(kind, [a, b]), Exclusive(m, Box, [a, b])))
  {
    var line, exclusive := Mutual(kind, [a, b]), Exclusive(m, Box, [a, b]);
    var m1 := Pruned(m, line, exclusive);
    PairMutual(kind, a, b);
    forall v | IsGrid(v) && Allows(m, v) ensures Allows(m1, v) {
      forall p | 0 <= p < 81 ensures v[p] in m1[p] {
        if p in line {
          UnitPeers(kind, p, a);
          UnitPeers(kind, p, b);
          PointedAllows(m, s, a, b, v, p);
        }
      }
    }
  }

  /**
   * The pointing-pair rule keeps every grid the marks allow: a mark that
   * only `a` and `b` hold in their box is the value of one of them, so no
   * cell that is a peer of both has it.
   */
  lemma {:induction false} PointedKeeps(m: seq<seq<int>>, s: seq<bool>, a: int, b: int)
    requires WellFormed(m, s) && IsPos(a) && IsPos(b) && BoxOf(a) == BoxOf(b)
    ensures KeepsSolutions(m, Pointed(m, a, b))
  {
    var exclusive := Exclusive(m, Box, [a, b]);
    if |exclusive| == 1 && RowOf(a) == RowOf(b) {
      LineKeeps(m, s, Row, a, b);
    } else if |exclusive| == 1 && ColumnOf(a) == ColumnOf(b) {
      LineKeeps(m, s, Column, a, b);
    }
  }

  /** An emptied cell admits no grid. */
  lemma EmptyAllowsNone(m: seq<seq<int>>, p: int)
    requires |m| == 81 && IsPos(p) && m[p] == []
    ensures forall v :: !Allows(m, v)
  {
  }

  /** Marks down to one per cell admit at most the grid they spell. */
  lemma {:induction false} SingletonsAllowOne(m: seq<seq<int>>, values: seq<int>)
    requires |m| == 81 && |values| == 81 && forall p :: 0 <= p < 81 ==> m[p] == [values[p]]
    ensures forall v :: Allows(m, v) <==> v == values
  {
    forall v | Allows(m, v) ensures v == values {
      forall p | 0 <= p < 81 ensures v[p] == values[p] {
        assert v[p] in m[p];
      }
    }
  }

  /** For well-posed clues, the completed grids the seeded marks allow are the ones that agree with the clues. */
  lemma {:induction false} SeededAllows(seed: seq<Clue>, v: seq<int>)
    requires WellPosed(seed) && IsGrid(v)
    ensures Allows(InitialMarks(seed), v) <==> Agrees(seed, v)
  {
    var m := InitialMarks(seed);
    DigitsSpec();
    if Allows(m, v) {
      forall i | 0 <= i < |seed| && IsPos(ClueCell(seed[i])) ensures v[ClueCell(seed[i])] == seed[i].value {
        var p := ClueCell(seed[i]);
        ClueAtSpec(seed, p);
        var j :| 0 <= j < |seed| && ClueCell(seed[j]) == p && seed[j].value == ClueAt(seed, p).value;
        assert i == j;
        assert v[p] in m[p];
      }
    }
    if Agrees(seed, v) {
      forall p | 0 <= p < 81 ensures v[p] in m[p] {
        ClueAtSpec(seed, p);
        match ClueAt(seed, p)
        case Some(w) =>
          var j :| 0 <= j < |seed| && ClueCell(seed[j]) == p && seed[j].value == w;
        case None =>
          assert v[p] !in PeerClues(seed, p) by {
            if v[p] in PeerClues(seed, p) {
              var i :| 0 <= i < |seed| && Peers(ClueCell(seed[i]), p) && seed[i].value == v[p];
              assert ClueInRange(seed[i]);
              Coordinates(seed[i].row, seed[i].column);
              assert IsPos(ClueCell(seed[i]));
            }
          }
          WithoutSpec(Digits(), PeerClues(seed, p));
      }
    }
  }

  /** Marks that only lost entries allow every grid that the later marks allow. */
  lemma ShrinksAllows(m0: seq<seq<int>>, m1: seq<seq<int>>, v: seq<int>)
    requires |m0| == 81 && |m1| == 81 && Shrinks(m0, m1) && Allows(m1, v)
    ensures Allows(m0, v)
  {
    forall p | 0 <= p < 81 ensures v[p] in m0[p] {
      var x := v[p];
      assert x in m1[p];
    }
  }

  /**
   * When the rules end with one mark per cell, spelling the grid `values`,
   * that grid is the only completed grid the starting marks allowed.
   */
  lemma {:induction false} SolvedAllowsOne(m0: seq<seq<int>>, m1: seq<seq<int>>, values: seq<int>)
    requires |m0| == 81 && |m1| == 81 && |values| == 81 && IsGrid(values)
    requires Shrinks(m0, m1) && KeepsSolutions(m0, m1)
    requires forall p :: 0 <= p < 81 ==> m1[p] == [values[p]]
    ensures forall v :: IsGrid(v) && Allows(m0, v) <==> v == values
  {
    SingletonsAllowOne(m1, values);
    ShrinksAllows(m0, m1, values);
    forall v | IsGrid(v) && Allows(m0, v) ensures v == values {
      assert Allows(m1, v);
    }
  }

  /**
   * When `solve` stops with every cell solved, the board holds a completed
   * grid that keeps the clues it started from and is the only grid the
   * starting marks allow.
   */
  lemma FinishedSolution(m0: seq<seq<int>>, s0: seq<bool>, m: seq<seq<int>>, s: seq<bool>)
    requires WellFormed(m, s) && Consistent(m, s) && |m0| == 81 && |s0| == 81 && Consistent(m0, s0)
    requires Shrinks(m0, m) && Grows(s0, s) && KeepsSolutions(m0, m) && Unsolved(s) == []
    ensures forall p :: 0 <= p < 81 ==> s[p] && |m[p]| == 1
    ensures IsGrid(Values(m))
    ensures forall p :: 0 <= p < 81 && s0[p] ==> m0[p] == [Values(m)[p]]
    ensures forall v :: IsGrid(v) && Allows(m0, v) <==> v == Values(m)
  {
    NoneUnsolved(s);
    SolvedGrid(m, s);
    SolvedKept(m0, s0, m, s);
    SolvedAllowsOne(m0, m, Values(m));
  }

  /** When the rules empty a cell, the starting marks allowed no completed grid. */
  lemma {:induction false} EmptiedAllowsNone(m0: seq<seq<int>>, m1: seq<seq<int>>)
    requires |m1| == 81 && KeepsSolutions(m0, m1)
    requires exists p :: 0 <= p < 81 && m1[p] == []
    ensures forall v :: IsGrid(v) ==> !Allows(m0, v)
  {
    var p :| 0 <= p < 81 && m1[p] == [];
    EmptyAllowsNone(m1, p);
    forall v | IsGrid(v) ensures !Allows(m0, v) {
      assert Allows(m0, v) ==> Allows(m1, v);
    }
  }
}
