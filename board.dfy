/**
 * The board as values: the 81 mark lists `m` and solved flags `s` of a
 * `Puzzle`, indexed by cell. The class in puzzle.dfy is specified by the
 * functions here, and the properties of the solving rules are proved here.
 */
module Board {
  import opened Lists
  import opened Neighbors
  import opened Cells

  /** 81 cells, each holding a mark list. */
  ghost predicate WellFormed(m: seq<seq<int>>, s: seq<bool>)
  {
    |m| == 81 && |s| == 81 && forall p :: 0 <= p < 81 ==> IsMarkList(m[p])
  }

  /** Every solved cell holds exactly one mark, and none of its peers still has that mark. */
  ghost predicate Consistent(m: seq<seq<int>>, s: seq<bool>)
    requires |m| == 81 && |s| == 81
  {
    (forall p :: 0 <= p < 81 && s[p] ==> |m[p]| == 1) &&
    (forall p, q :: 0 <= p < 81 && 0 <= q < 81 && s[p] && Peers(p, q) ==> m[p][0] !in m[q])
  }

  /** Every element of `a` is in `b`. */
  ghost predicate Within(a: seq<int>, b: seq<int>)
  {
    forall x :: x in a ==> x in b
  }

  /** From `m0` to `m1` marks were only removed. */
  ghost predicate Shrinks(m0: seq<seq<int>>, m1: seq<seq<int>>)
    requires |m0| == 81 && |m1| == 81
  {
    forall p :: 0 <= p < 81 ==> Within(m1[p], m0[p])
  }

  /** Every cell whose marks differ from `m0` to `m1` is one of `cells`. */
  ghost predicate ChangedWithin(m0: seq<seq<int>>, m1: seq<seq<int>>, cells: seq<int>)
    requires |m0| == 81 && |m1| == 81
  {
    forall p :: 0 <= p < 81 && m1[p] != m0[p] ==> p in cells
  }

  /** From `s0` to `s1` cells were only marked solved. */
  ghost predicate Grows(s0: seq<bool>, s1: seq<bool>)
    requires |s0| == 81 && |s1| == 81
  {
    forall p :: 0 <= p < 81 && s0[p] ==> s1[p]
  }

  /** The test `not x.solved` of `[x for x in self.cells if not x.solved]`. */
  function IsUnsolvedIn(s: seq<bool>): int -> bool
  {
    p => 0 <= p < |s| && !s[p]
  }

  /** The test `len(y.PencilMarks) == 1`. */
  function HasOneMark(m: seq<seq<int>>): int -> bool
  {
    p => 0 <= p < |m| && |m[p]| == 1
  }

  /** The test `len(x.PencilMarks) > 1`. */
  function HasMoreMarks(m: seq<seq<int>>): int -> bool
  {
    p => 0 <= p < |m| && |m[p]| > 1
  }

  /** `working_set`: the unsolved cells in board order. */
  function Unsolved(s: seq<bool>): seq<int>
  {
    Filter(Range(0, |s|, 1), IsUnsolvedIn(s))
  }

  /** `new_singles_set`: the unsolved cells that are down to one mark. */
  function Singles(m: seq<seq<int>>, s: seq<bool>): seq<int>
  {
    Filter(Unsolved(s), HasOneMark(m))
  }

  /** The cells of the neighbour list `aggregate()` of `q` lose the mark `v`. */
  function Purged(m: seq<seq<int>>, q: int, v: int): seq<seq<int>>
    requires |m| == 81
  {
    seq(81, p requires 0 <= p < 81 => if Peers(q, p) then RemoveMark(m[p], v) else m[p])
  }

  /** The cells of `done` lose the mark `v`. */
  function Swept(m: seq<seq<int>>, done: set<int>, v: int): seq<seq<int>>
    requires |m| == 81
  {
    seq(81, p requires 0 <= p < 81 => if p in done then RemoveMark(m[p], v) else m[p])
  }

  /** Replacing one cell's marks by a mark list keeps the board well formed. */
  lemma UpdateWellFormed(m: seq<seq<int>>, s: seq<bool>, p: int, l: seq<int>)
    requires WellFormed(m, s) && IsPos(p) && IsMarkList(l)
    ensures WellFormed(m[p := l], s)
  {
  }

  lemma SweptStep(m: seq<seq<int>>, done: set<int>, j: int, v: int)
    requires |m| == 81 && IsPos(j) && j !in done
    ensures Swept(m, done + {j}, v) == Swept(m, done, v)[j := RemoveMark(Swept(m, done, v)[j], v)]
  {
  }

  lemma AggregateCells(q: int)
    requires IsPos(q)
    ensures Distinct(Aggregate(q))
    ensures forall i :: 0 <= i < |Aggregate(q)| ==> IsPos(Aggregate(q)[i])
    ensures forall p :: 0 <= p < 81 ==> (p in Elements(Aggregate(q)) <==> Peers(q, p))
  {
    AggregateSpec(q);
    CellsOfMembers(Aggregate(q), q);
  }

  lemma CellsOfMembers(a: seq<int>, q: int)
    requires forall x :: x in a <==> IsPos(x) && Peers(q, x)
    ensures forall i :: 0 <= i < |a| ==> IsPos(a[i])
    ensures forall p :: 0 <= p < 81 ==> (p in Elements(a) <==> Peers(q, p))
  {
    forall i | 0 <= i < |a| ensures IsPos(a[i]) {
      assert a[i] in a;
    }
  }

  /** A list filtered out of cell indices holds cell indices. */
  lemma FilterCells(ws: seq<int>, keep: int -> bool)
    requires forall i :: 0 <= i < |ws| ==> IsPos(ws[i])
    ensures forall i :: 0 <= i < |Filter(ws, keep)| ==> 0 <= Filter(ws, keep)[i] < 81
  {
    var r := Filter(ws, keep);
    forall i | 0 <= i < |r| ensures 0 <= r[i] < 81 {
      assert r[i] in r;
      var j :| 0 <= j < |ws| && ws[j] == r[i];
    }
  }

  /** Sweeping `v` out of exactly the peers of `q` purges them. */
  lemma {:induction false} PurgedIsSwept(m: seq<seq<int>>, q: int, v: int, done: set<int>)
    requires |m| == 81
    requires forall p :: 0 <= p < 81 ==> (p in done <==> Peers(q, p))
    ensures Purged(m, q, v) == Swept(m, done, v)
  {
  }

  /** `cells[q].solve(v)` followed by `remove_mark(v)` on every cell of its `aggregate()`. */
  function Placed(m: seq<seq<int>>, q: int, v: int): (m': seq<seq<int>>)
    requires |m| == 81 && IsPos(q)
    ensures |m'| == 81
  {
    Purged(m[q := [v]], q, v)
  }

  lemma {:induction false} UnsolvedMembers(s: seq<bool>)
    ensures forall p :: p in Unsolved(s) <==> 0 <= p < |s| && !s[p]
  {
    var all := Range(0, |s|, 1);
    RangeMembers(0, |s|);
    forall p ensures p in Unsolved(s) <==> 0 <= p < |s| && !s[p] {
      assert p in Unsolved(s) <==> p in all && IsUnsolvedIn(s)(p);
    }
  }

  lemma {:induction false} UnsolvedAscending(s: seq<bool>)
    ensures Ascending(Unsolved(s))
  {
    RangeAscending(0, |s|, 1);
    FilterAscending(Range(0, |s|, 1), IsUnsolvedIn(s));
  }

  /** `working_set` lists the unsolved cells, ascending. */
  lemma {:induction false} UnsolvedSpec(s: seq<bool>)
    ensures Ascending(Unsolved(s))
    ensures forall p :: p in Unsolved(s) <==> 0 <= p < |s| && !s[p]
    ensures forall i :: 0 <= i < |Unsolved(s)| ==> 0 <= Unsolved(s)[i] < |s| && !s[Unsolved(s)[i]]
  {
    UnsolvedMembers(s);
    UnsolvedAscending(s);
    forall i | 0 <= i < |Unsolved(s)| ensures 0 <= Unsolved(s)[i] < |s| && !s[Unsolved(s)[i]] {
      assert Unsolved(s)[i] in Unsolved(s);
    }
  }

  /** `new_singles_set` lists exactly the unsolved cells that have one mark. */
  lemma {:induction false} SinglesSpec(m: seq<seq<int>>, s: seq<bool>)
    requires |m| == 81 && |s| == 81
    ensures forall p :: p in Singles(m, s) <==> IsPos(p) && !s[p] && |m[p]| == 1
  {
    UnsolvedSpec(s);
  }

  /**
   * Solving cells never increases the number of unsolved cells, and solving
   * one more cell decreases it.
   */
  lemma {:induction false} UnsolvedShrinks(s0: seq<bool>, s1: seq<bool>)
    requires |s0| == 81 && |s1| == 81 && Grows(s0, s1)
    ensures |Unsolved(s1)| <= |Unsolved(s0)|
    ensures (exists q :: 0 <= q < 81 && !s0[q] && s1[q]) ==> |Unsolved(s1)| < |Unsolved(s0)|
  {
    var all := Range(0, |s0|, 1);
    assert Range(0, |s1|, 1) == all;
    var weak, strong := IsUnsolvedIn(s0), IsUnsolvedIn(s1);
    FilterMonotone(all, weak, strong);
    if exists q :: 0 <= q < 81 && !s0[q] && s1[q] {
      var q :| 0 <= q < 81 && !s0[q] && s1[q];
      RangeMembers(0, |s0|);
      FilterShrinks(all, weak, strong, q);
    }
  }

  /** With nothing left unsolved, every cell is solved. */
  lemma {:induction false} NoneUnsolved(s: seq<bool>)
    requires |s| == 81 && |Unsolved(s)| == 0
    ensures forall p :: 0 <= p < 81 ==> s[p]
  {
    UnsolvedSpec(s);
  }

  /** Placing a value on a cell only removes marks elsewhere, and keeps every list a mark list. */
  lemma {:induction false} PlacedShrinks(m: seq<seq<int>>, s: seq<bool>, q: int, v: int)
    requires WellFormed(m, s) && IsPos(q) && 1 <= v <= 9
    ensures WellFormed(Placed(m, q, v), s)
    ensures forall p :: 0 <= p < 81 && p != q ==> Within(Placed(m, q, v)[p], m[p])
    ensures v in m[q] ==> Shrinks(m, Placed(m, q, v))
  {
    var m1 := Placed(m, q, v);
    forall p | 0 <= p < 81 ensures IsMarkList(m1[p]) && (p != q ==> Within(m1[p], m[p])) {
      if p != q && Peers(q, p) {
        RemoveMarkSpec(m[p], v);
      }
    }
  }

  /** A solved cell other than `q` keeps its marks when `v` is placed on `q`, unless it held `v`. */
  lemma {:induction false} PlacedKeepsSolved(m: seq<seq<int>>, s: seq<bool>, q: int, v: int, p: int)
    requires WellFormed(m, s) && Consistent(m, s) && IsPos(q) && IsPos(p) && p != q && s[p]
    requires Peers(p, q) ==> m[p] != [v]
    ensures Placed(m, q, v)[p] == m[p]
  {
    if Peers(q, p) {
      assert m[p] == [m[p][0]];
      assert v !in m[p];
    }
  }

  /**
   * Placing `v` on `q` keeps the board consistent when no solved peer of `q`
   * holds `v` and `q` itself, if solved, already holds just `v`.
   */
  lemma {:induction false} PlacedConsistent(m: seq<seq<int>>, s: seq<bool>, q: int, v: int)
    requires WellFormed(m, s) && Consistent(m, s) && IsPos(q) && 1 <= v <= 9
    requires s[q] ==> m[q] == [v]
    requires forall p :: 0 <= p < 81 && s[p] && Peers(p, q) ==> m[p] != [v]
    ensures Consistent(Placed(m, q, v), s[q := true])
  {
    var m1, s1 := Placed(m, q, v), s[q := true];
    PlacedShrinks(m, s, q, v);
    forall p | 0 <= p < 81 && s1[p] ensures |m1[p]| == 1 {
      if p != q {
        PlacedKeepsSolved(m, s, q, v, p);
      }
    }
    forall p, r | 0 <= p < 81 && 0 <= r < 81 && s1[p] && Peers(p, r) ensures m1[p][0] !in m1[r] {
      if p == q {
        RemoveMarkSpec(m[q := [v]][r], v);
      } else {
        PlacedKeepsSolved(m, s, q, v, p);
        if r == q {
          assert m[p][0] != v;
        } else {
          assert m[p][0] !in m[r];
        }
      }
    }
  }

  /**
   * Solving a solved cell again with its own value, as the naked-single
   * loop does for a stale working set, changes nothing on a consistent board.
   */
  lemma {:induction false} ResolveInert(m: seq<seq<int>>, s: seq<bool>, q: int)
    requires WellFormed(m, s) && Consistent(m, s) && IsPos(q) && s[q]
    ensures Placed(m, q, m[q][0]) == m
  {
    var v := m[q][0];
    assert m[q] == [v];
    forall p | 0 <= p < 81 ensures Placed(m, q, v)[p] == m[p] {
      if Peers(q, p) {
        assert v !in m[p];
      }
    }
  }

  /** `set.union(*[set(self.cells[i].PencilMarks) for i in cells])`: every mark held by one of `cells`. */
  function MarksOf(m: seq<seq<int>>, cells: set<int>): set<int>
  {
    set p, x | p in cells && 0 <= p < |m| && x in m[p] :: x
  }

  lemma MarksOfSpec(m: seq<seq<int>>, cells: set<int>)
    ensures forall x :: x in MarksOf(m, cells) <==> exists k :: k in cells && 0 <= k < |m| && x in m[k]
  {
  }

  lemma MarksOfHas(m: seq<seq<int>>, cells: set<int>, k: int, x: int)
    requires k in cells && 0 <= k < |m| && x in m[k]
    ensures x in MarksOf(m, cells)
  {
    MarksOfSpec(m, cells);
  }

  /**
   * `set.intersection(*[set(p.neighbors.row) for p in cell_tuple])` and its
   * column and grid copies: the cells that neighbour every cell of `t` in the unit `kind`.
   */
  function Mutual(kind: Unit, t: seq<int>): set<int>
    requires |t| > 0
  {
    if |t| == 1 then Elements(UnitNeighbors(kind, t[0]))
    else Elements(UnitNeighbors(kind, t[0])) * Mutual(kind, t[1..])
  }

  /** The mutual neighbours of cells of one unit are the other cells of that unit. */
  lemma {:induction false} MutualSpec(kind: Unit, t: seq<int>)
    requires |t| > 0
    requires forall i :: 0 <= i < |t| ==> IsPos(t[i]) && UnitIndex(kind, t[i]) == UnitIndex(kind, t[0])
    ensures forall x :: x in Mutual(kind, t) <==> IsPos(x) && UnitIndex(kind, x) == UnitIndex(kind, t[0]) && x !in t
  {
    UnitNeighborsSpec(kind, t[0]);
    if |t| > 1 {
      MutualSpec(kind, t[1..]);
      assert t[1..][0] == t[1];
      forall x ensures x in t <==> x == t[0] || x in t[1..] {
        assert t == [t[0]] + t[1..];
      }
    }
  }

  /** The mutual neighbours of two cells of one unit are the other seven cells of that unit. */
  lemma PairMutual(kind: Unit, a: int, b: int)
    requires IsPos(a) && IsPos(b) && UnitIndex(kind, a) == UnitIndex(kind, b)
    ensures forall x :: x in Mutual(kind, [a, b]) <==> IsPos(x) && UnitIndex(kind, x) == UnitIndex(kind, a) && x != a && x != b
  {
    MutualSpec(kind, [a, b]);
  }

  /** A subset as large as its superset is the superset. */
  lemma SubsetAsLarge(a: set<int>, b: set<int>)
    requires a <= b && |b| <= |a|
    ensures a == b
  {
    assert b == a + (b - a);
    assert |b - a| == 0;
  }

  /**
   * When the exclusive marks of a tuple are all of its marks, none of the
   * mutual neighbours holds any of them: the `else` branch of `reduce_r`
   * removes nothing.
   */
  lemma {:induction false} HiddenSubsetInert(m: seq<seq<int>>, shared: set<int>, mutual: set<int>)
    requires |shared| <= |shared - MarksOf(m, mutual)|
    ensures forall k, i :: k in mutual && 0 <= k < |m| && 0 <= i < |m[k]| ==> m[k][i] !in shared
  {
    SubsetAsLarge(shared - MarksOf(m, mutual), shared);
    forall k, i | k in mutual && 0 <= k < |m| && 0 <= i < |m[k]| ensures m[k][i] !in shared {
      MarksOfHas(m, mutual, k, m[k][i]);
    }
  }

  /** A clue `(row, column, value)` of the seed list. */
  datatype Clue = Clue(row: int, column: int, value: int)

  predicate ClueInRange(c: Clue)
  {
    0 <= c.row < 9 && 0 <= c.column < 9 && 1 <= c.value <= 9
  }

  /** `cell_index = 9 * i[0] + i[1]`. */
  function ClueCell(c: Clue): int
  {
    CellAt(c.row, c.column)
  }

  predicate CluesInRange(seed: seq<Clue>)
  {
    forall i :: 0 <= i < |seed| ==> ClueInRange(seed[i])
  }

  /** Clues on distinct cells, no two peers given the same value. */
  ghost predicate WellPosed(seed: seq<Clue>)
  {
    CluesInRange(seed) &&
    (forall i, j :: 0 <= i < j < |seed| ==> ClueCell(seed[i]) != ClueCell(seed[j])) &&
    (forall i, j :: 0 <= i < |seed| && 0 <= j < |seed| && Peers(ClueCell(seed[i]), ClueCell(seed[j])) ==>
       seed[i].value != seed[j].value)
  }

  /** The marks `Puzzle.__init__` leaves: all nine digits everywhere, then each clue placed in turn. */
  function Seeded(seed: seq<Clue>): (m: seq<seq<int>>)
    requires CluesInRange(seed)
    ensures |m| == 81
    decreases |seed|
  {
    if seed == [] then seq(81, p => Digits())
    else
      var c := seed[|seed| - 1];
      Placed(Seeded(seed[..|seed| - 1]), ClueCell(c), c.value)
  }

  /** The value of the last clue given for cell `p`, if any. */
  function ClueAt(seed: seq<Clue>, p: int): Option<int>
    decreases |seed|
  {
    if seed == [] then None
    else if ClueCell(seed[|seed| - 1]) == p then Some(seed[|seed| - 1].value)
    else ClueAt(seed[..|seed| - 1], p)
  }

  /** The solved flags `Puzzle.__init__` leaves: exactly the clue cells. */
  function SeededSolved(seed: seq<Clue>): (s: seq<bool>)
  {
    seq(81, p => ClueAt(seed, p).Some?)
  }

  /** The values of the clues on the peers of `p`. */
  ghost function PeerClues(seed: seq<Clue>, p: int): set<int>
  {
    set i | 0 <= i < |seed| && Peers(ClueCell(seed[i]), p) :: seed[i].value
  }

  /**
   * The board after seeding, stated cell by cell: a clue cell holds its
   * value, any other cell the digits that no clue among its peers holds.
   */
  ghost function InitialMarks(seed: seq<Clue>): seq<seq<int>>
  {
    seq(81, p => InitialCell(ClueAt(seed, p), PeerClues(seed, p)))
  }

  /** The marks of one cell after seeding, from its own clue and the values of its peers' clues. */
  function InitialCell(clue: Option<int>, peerValues: set<int>): seq<int>
  {
    match clue
    case Some(v) => [v]
    case None => Without(Digits(), peerValues)
  }

  lemma {:induction false} ClueAtSpec(seed: seq<Clue>, p: int)
    ensures ClueAt(seed, p).Some? ==>
      exists i :: 0 <= i < |seed| && ClueCell(seed[i]) == p && seed[i].value == ClueAt(seed, p).value
    ensures ClueAt(seed, p).None? ==> forall i :: 0 <= i < |seed| ==> ClueCell(seed[i]) != p
    decreases |seed|
  {
    if seed != [] {
      var n := |seed| - 1;
      if ClueCell(seed[n]) != p {
        ClueAtSpec(seed[..n], p);
        if ClueAt(seed, p).Some? {
          var i :| 0 <= i < n && ClueCell(seed[..n][i]) == p && seed[..n][i].value == ClueAt(seed, p).value;
          assert seed[i] == seed[..n][i];
        } else {
          forall i | 0 <= i < |seed| ensures ClueCell(seed[i]) != p {
            if i < n {
              assert seed[i] == seed[..n][i];
            }
          }
        }
      }
    }
  }

  /** The peer clue values after one more clue. */
  lemma PeerCluesSnoc(seed: seq<Clue>, p: int)
    requires seed != []
    ensures PeerClues(seed, p) ==
      PeerClues(seed[..|seed| - 1], p) +
      (if Peers(ClueCell(seed[|seed| - 1]), p) then {seed[|seed| - 1].value} else {})
  {
    var n := |seed| - 1;
    forall i | 0 <= i < n ensures seed[..n][i] == seed[i] {
    }
  }

  /** A prefix of a well-posed seed is well posed. */
  lemma WellPosedPrefix(seed: seq<Clue>, n: nat)
    requires WellPosed(seed) && n <= |seed|
    ensures WellPosed(seed[..n])
  {
    assert forall i :: 0 <= i < n ==> seed[..n][i] == seed[i];
  }

  /** A peer of the new clue that holds a clue of its own keeps it. */
  lemma {:induction false} SnocPeerClue(seed: seq<Clue>, p: int, w: int)
    requires WellPosed(seed) && seed != [] && IsPos(p)
    requires Peers(ClueCell(seed[|seed| - 1]), p) && ClueAt(seed[..|seed| - 1], p) == Some(w)
    ensures w != seed[|seed| - 1].value
  {
    var n := |seed| - 1;
    var prefix := seed[..n];
    ClueAtSpec(prefix, p);
    var i :| 0 <= i < n && ClueCell(prefix[i]) == p && prefix[i].value == w;
    assert prefix[i] == seed[i];
    assert Peers(ClueCell(seed[n]), ClueCell(seed[i]));
  }

  /** A peer of the new clue loses the clue's value unless it holds a clue itself. */
  lemma {:induction false} SnocPeer(seed: seq<Clue>, p: int)
    requires WellPosed(seed) && seed != [] && IsPos(p) && Peers(ClueCell(seed[|seed| - 1]), p)
    ensures RemoveMark(InitialMarks(seed[..|seed| - 1])[p], seed[|seed| - 1].value) == InitialMarks(seed)[p]
  {
    var n := |seed| - 1;
    var prefix, v := seed[..n], seed[n].value;
    assert ClueAt(seed, p) == ClueAt(prefix, p);
    match ClueAt(prefix, p)
    case Some(w) =>
      SnocPeerClue(seed, p, w);
      assert v !in [w];
    case None =>
      PeerCluesSnoc(seed, p);
      DigitsSpec();
      RemoveMarkWithout(Digits(), PeerClues(prefix, p), v);
  }

  /** A cell that is neither the new clue's cell nor its peer keeps its marks. */
  lemma {:induction false} SnocApart(seed: seq<Clue>, p: int)
    requires seed != [] && IsPos(p) && p != ClueCell(seed[|seed| - 1]) && !Peers(ClueCell(seed[|seed| - 1]), p)
    ensures InitialMarks(seed[..|seed| - 1])[p] == InitialMarks(seed)[p]
  {
    var n := |seed| - 1;
    assert ClueAt(seed, p) == ClueAt(seed[..n], p);
    PeerCluesSnoc(seed, p);
    assert PeerClues(seed, p) == PeerClues(seed[..n], p);
  }

  /** One more clue changes the closed form exactly as placing it does. */
  lemma {:induction false} InitialMarksSnoc(seed: seq<Clue>, p: int)
    requires WellPosed(seed) && seed != [] && IsPos(p)
    ensures Placed(InitialMarks(seed[..|seed| - 1]), ClueCell(seed[|seed| - 1]), seed[|seed| - 1].value)[p] ==
            InitialMarks(seed)[p]
  {
    var n := |seed| - 1;
    var q, v := ClueCell(seed[n]), seed[n].value;
    var m0 := InitialMarks(seed[..n]);
    if p == q {
      assert ClueAt(seed, p) == Some(v);
    } else if Peers(q, p) {
      SnocPeer(seed, p);
    } else {
      SnocApart(seed, p);
    }
  }

  /** For well-posed clues the seeded board has the closed form `InitialMarks`. */
  lemma {:induction false} SeededClosedForm(seed: seq<Clue>)
    requires WellPosed(seed)
    ensures Seeded(seed) == InitialMarks(seed)
    decreases |seed|
  {
    if seed == [] {
      NoClues(seed);
    } else {
      var n := |seed| - 1;
      WellPosedPrefix(seed, n);
      SeededClosedForm(seed[..n]);
      var m0, q, v := InitialMarks(seed[..n]), ClueCell(seed[n]), seed[n].value;
      assert Seeded(seed) == Placed(m0, q, v);
      forall p | 0 <= p < 81 ensures Placed(m0, q, v)[p] == InitialMarks(seed)[p] {
        InitialMarksSnoc(seed, p);
      }
    }
  }

  /** Without clues every cell keeps the nine digits. */
  lemma NoClues(seed: seq<Clue>)
    requires seed == []
    ensures Seeded(seed) == InitialMarks(seed)
  {
    forall p | 0 <= p < 81 ensures Seeded(seed)[p] == InitialMarks(seed)[p] {
      UnseededCell(seed, p);
    }
  }

  /** Without clues a cell has no clue and no peer clue, so it keeps the nine digits. */
  lemma UnseededCell(seed: seq<Clue>, p: int)
    requires seed == [] && 0 <= p < 81
    ensures InitialMarks(seed)[p] == Digits()
  {
    assert ClueAt(seed, p) == None && PeerClues(seed, p) == {};
    WithoutNothing(Digits(), {});
  }


  /** Well-posed clues give a well-formed, consistent board whose solved cells are the clue cells. */
  lemma {:induction false} InitialConsistent(seed: seq<Clue>)
    requires WellPosed(seed)
    ensures WellFormed(InitialMarks(seed), SeededSolved(seed))
    ensures Consistent(InitialMarks(seed), SeededSolved(seed))
  {
    var m, s := InitialMarks(seed), SeededSolved(seed);
    DigitsSpec();
    forall p | 0 <= p < 81 ensures IsMarkList(m[p]) {
      ClueAtSpec(seed, p);
      if ClueAt(seed, p).None? {
        WithoutSpec(Digits(), PeerClues(seed, p));
      }
    }
    forall p, r | 0 <= p < 81 && 0 <= r < 81 && s[p] && Peers(p, r) ensures m[p][0] !in m[r] {
      ClueAtSpec(seed, p);
      ClueAtSpec(seed, r);
      var i :| 0 <= i < |seed| && ClueCell(seed[i]) == p && seed[i].value == ClueAt(seed, p).value;
      if ClueAt(seed, r).Some? {
        var j :| 0 <= j < |seed| && ClueCell(seed[j]) == r && seed[j].value == ClueAt(seed, r).value;
        assert seed[i].value != seed[j].value;
      } else {
        assert seed[i].value in PeerClues(seed, r);
        WithoutSpec(Digits(), PeerClues(seed, r));
      }
    }
  }

  /** `Puzzle.info()`: the rows of `get_value()`, or `None` when a solved cell has no mark to show. */
  function InfoOf(m: seq<seq<int>>, s: seq<bool>): Option<seq<seq<Symbol>>>
    requires |m| == 81 && |s| == 81
  {
    if exists p :: 0 <= p < 81 && s[p] && m[p] == [] then None
    else Some(seq(9, i requires 0 <= i < 9 =>
                seq(9, j requires 0 <= j < 9 => GetValue(m[CellAt(i, j)], s[CellAt(i, j)]).value)))
  }

  /**
   * On a consistent board `get_value()` never raises: a solved cell shows
   * its one mark, a digit from 1 to 9, and any other cell shows "X".
   */
  lemma ShownValue(m: seq<seq<int>>, s: seq<bool>, p: int)
    requires WellFormed(m, s) && Consistent(m, s) && IsPos(p)
    ensures s[p] ==> m[p] == [m[p][0]] && 1 <= m[p][0] <= 9 && GetValue(m[p], s[p]) == Some(Digit(m[p][0]))
    ensures !s[p] ==> GetValue(m[p], s[p]) == Some(Unknown)
  {
  }

  /** On a consistent board `info()` prints, row by row, the value each cell shows. */
  lemma {:induction false} ConsistentInfo(m: seq<seq<int>>, s: seq<bool>)
    requires WellFormed(m, s) && Consistent(m, s)
    ensures InfoOf(m, s).Some?
    ensures forall i, j :: 0 <= i < 9 && 0 <= j < 9 ==>
              InfoOf(m, s).value[i][j] == if s[CellAt(i, j)] then Digit(m[CellAt(i, j)][0]) else Unknown
  {
    forall p | 0 <= p < 81 && s[p] ensures m[p] != [] {
      ShownValue(m, s, p);
    }
    forall i, j | 0 <= i < 9 && 0 <= j < 9
      ensures InfoOf(m, s).value[i][j] == if s[CellAt(i, j)] then Digit(m[CellAt(i, j)][0]) else Unknown
    {
      Coordinates(i, j);
      ShownValue(m, s, CellAt(i, j));
    }
  }

  /** The grid of the clues: their digits, and "X" everywhere else. */
  function ClueGrid(seed: seq<Clue>): seq<seq<Symbol>>
  {
    seq(9, i => seq(9, j => match ClueAt(seed, CellAt(i, j))
                            case Some(v) => Digit(v)
                            case None => Unknown))
  }

  /** Right after seeding, every cell shows its clue's digit or "X". */
  lemma {:induction false} InitialValues(seed: seq<Clue>, p: int)
    requires WellPosed(seed) && IsPos(p)
    ensures GetValue(InitialMarks(seed)[p], SeededSolved(seed)[p]) ==
      Some(match ClueAt(seed, p) case Some(v) => Digit(v) case None => Unknown)
  {
  }

  /** Right after seeding, `info()` shows the clues and "X" for every other cell. */
  lemma {:induction false} InitialInfo(seed: seq<Clue>)
    requires WellPosed(seed)
    ensures InfoOf(Seeded(seed), SeededSolved(seed)) == Some(ClueGrid(seed))
  {
    SeededClosedForm(seed);
    var m, s := InitialMarks(seed), SeededSolved(seed);
    forall p | 0 <= p < 81 && s[p] ensures m[p] != [] {
      InitialValues(seed, p);
    }
    var rows, grid := InfoOf(m, s).value, ClueGrid(seed);
    forall i | 0 <= i < 9 ensures rows[i] == grid[i] {
      forall j | 0 <= j < 9 ensures rows[i][j] == grid[i][j] {
        InitialValues(seed, CellAt(i, j));
      }
    }
    assert rows == grid;
  }

  /** `all(j not in self.cells[k].PencilMarks for k in cells)`. */
  predicate Absent(m: seq<seq<int>>, j: int, cells: seq<int>)
  {
    forall i :: 0 <= i < |cells| && 0 <= cells[i] < |m| ==> j !in m[cells[i]]
  }

  /** The test of the hidden-single loop: no other cell of the row, the column or the box holds `j`. */
  predicate IsHidden(m: seq<seq<int>>, p: int, j: int)
  {
    Absent(m, j, RowNeighbors(p)) || Absent(m, j, ColumnNeighbors(p)) || Absent(m, j, GridNeighbors(p))
  }

  /** `IsHidden` for the marks of `p`, as a test on each mark. */
  function HiddenTest(m: seq<seq<int>>, p: int): int -> bool
  {
    j => IsHidden(m, p, j)
  }

  lemma ShrinksTrans(m0: seq<seq<int>>, m1: seq<seq<int>>, m2: seq<seq<int>>)
    requires |m0| == 81 && |m1| == 81 && |m2| == 81
    requires Shrinks(m0, m1) && Shrinks(m1, m2)
    ensures Shrinks(m0, m2)
  {
  }

  /** Every cell whose marks differ from `m0` to `m1` is down to one mark. */
  ghost predicate ChangedToSingles(m0: seq<seq<int>>, m1: seq<seq<int>>)
    requires |m0| == 81 && |m1| == 81
  {
    forall p :: 0 <= p < 81 && m1[p] != m0[p] ==> |m1[p]| == 1
  }

  /** A step that changes at most `c`, and only to a single mark, extends both frames by `c`. */
  lemma SinglesTrans(m0: seq<seq<int>>, m1: seq<seq<int>>, m2: seq<seq<int>>, done: seq<int>, c: int)
    requires |m0| == 81 && |m1| == 81 && |m2| == 81
    requires ChangedWithin(m0, m1, done) && ChangedToSingles(m0, m1)
    requires ChangedWithin(m1, m2, [c]) && ChangedToSingles(m1, m2)
    ensures ChangedWithin(m0, m2, done + [c]) && ChangedToSingles(m0, m2)
  {
  }

  lemma ChangedTrans(m0: seq<seq<int>>, m1: seq<seq<int>>, m2: seq<seq<int>>, cells: seq<int>)
    requires |m0| == 81 && |m1| == 81 && |m2| == 81
    requires ChangedWithin(m0, m1, cells) && ChangedWithin(m1, m2, cells)
    ensures ChangedWithin(m0, m2, cells)
  {
  }

  /** Cutting a cell down to one of its marks only removes marks and keeps a mark list. */
  lemma Collapsed(m: seq<seq<int>>, s: seq<bool>, p: int, j: int)
    requires WellFormed(m, s) && IsPos(p) && j in m[p]
    ensures WellFormed(m[p := [j]], s) && Shrinks(m, m[p := [j]])
  {
    var k :| 0 <= k < |m[p]| && m[p][k] == j;
  }

  /** Removing marks from unsolved cells only keeps the board consistent. */
  lemma {:induction false} ShrinkConsistent(m0: seq<seq<int>>, m1: seq<seq<int>>, s: seq<bool>)
    requires |m0| == 81 && |m1| == 81 && |s| == 81
    requires Consistent(m0, s) && Shrinks(m0, m1)
    requires forall p :: 0 <= p < 81 && s[p] ==> m1[p] == m0[p]
    ensures Consistent(m1, s)
  {
    forall p, q | 0 <= p < 81 && 0 <= q < 81 && s[p] && Peers(p, q) ensures m1[p][0] !in m1[q] {
      assert m1[p][0] == m0[p][0] && Within(m1[q], m0[q]);
    }
  }

  /** A cell down to one mark keeps it or loses it when a value is placed elsewhere. */
  lemma OneMarkStays(m: seq<seq<int>>, q: int, v: int, p: int)
    requires |m| == 81 && IsPos(q) && IsPos(p) && |m[p]| <= 1
    requires p == q ==> m[p] == [v]
    ensures Placed(m, q, v)[p] == m[p] || Placed(m, q, v)[p] == []
  {
  }

  /**
   * One step of the naked-single loop: placing the only mark `v` of `c`
   * only removes marks, and keeps a consistent board consistent.
   */
  lemma {:induction false} NakedStep(m0: seq<seq<int>>, m: seq<seq<int>>, s: seq<bool>, c: int, v: int, consistent: bool)
    requires WellFormed(m, s) && |m0| == 81 && IsPos(c) && m[c] == [v]
    requires consistent ==> Consistent(m, s)
    ensures 1 <= v <= 9
    ensures WellFormed(Placed(m, c, v), s[c := true]) && Shrinks(m, Placed(m, c, v))
    ensures consistent ==> Consistent(Placed(m, c, v), s[c := true])
  {
    assert v in m[c];
    PlacedShrinks(m, s, c, v);
    if consistent {
      forall p | 0 <= p < 81 && s[p] && Peers(p, c) ensures m[p] != [v] {
        assert m[p][0] !in m[c];
      }
      PlacedConsistent(m, s, c, v);
    }
  }

  /** One more clue: the seeded board is the previous one with that clue placed. */
  lemma SeededStep(seed: seq<Clue>, k: int)
    requires CluesInRange(seed) && 0 <= k < |seed|
    ensures IsPos(ClueCell(seed[k])) && 1 <= seed[k].value <= 9
    ensures Seeded(seed[..k + 1]) == Placed(Seeded(seed[..k]), ClueCell(seed[k]), seed[k].value)
    ensures SeededSolved(seed[..k + 1]) == SeededSolved(seed[..k])[ClueCell(seed[k]) := true]
  {
    assert seed[..k + 1][..k] == seed[..k];
  }

  /** Every cell of `cells` loses the marks of `drop`. */
  function Pruned(m: seq<seq<int>>, cells: set<int>, drop: set<int>): (m': seq<seq<int>>)
    requires |m| == 81
    ensures |m'| == 81
  {
    seq(81, p requires 0 <= p < 81 => if p in cells then Without(m[p], drop) else m[p])
  }

  lemma PrunedStep(m: seq<seq<int>>, done: set<int>, k: int, drop: set<int>)
    requires |m| == 81 && IsPos(k) && k !in done
    ensures Pruned(m, done + {k}, drop) == Pruned(m, done, drop)[k := Without(m[k], drop)]
  {
  }

  /** Pruning only removes marks and keeps every list a mark list. */
  lemma {:induction false} PrunedShrinks(m: seq<seq<int>>, s: seq<bool>, cells: set<int>, drop: set<int>)
    requires WellFormed(m, s)
    ensures WellFormed(Pruned(m, cells, drop), s) && Shrinks(m, Pruned(m, cells, drop))
  {
    forall p | 0 <= p < 81 && p in cells ensures IsMarkList(Pruned(m, cells, drop)[p]) && Within(Pruned(m, cells, drop)[p], m[p]) {
      WithoutSpec(m[p], drop);
    }
  }

  /** Pruning cells that hold none of the dropped marks changes nothing. */
  lemma {:induction false} PrunedInert(m: seq<seq<int>>, cells: set<int>, drop: set<int>)
    requires |m| == 81
    requires forall k, i :: k in cells && 0 <= k < |m| && 0 <= i < |m[k]| ==> m[k][i] !in drop
    ensures Pruned(m, cells, drop) == m
  {
    forall p | 0 <= p < 81 && p in cells ensures Without(m[p], drop) == m[p] {
      WithoutNothing(m[p], drop);
    }
  }

  /** Pruning leaves a consistent board consistent when no solved cell loses its value. */
  lemma {:induction false} PrunedConsistent(m: seq<seq<int>>, s: seq<bool>, cells: set<int>, drop: set<int>)
    requires WellFormed(m, s) && Consistent(m, s)
    requires forall p :: 0 <= p < 81 && s[p] && p in cells ==> m[p][0] !in drop
    ensures Consistent(Pruned(m, cells, drop), s)
  {
    var m1 := Pruned(m, cells, drop);
    PrunedShrinks(m, s, cells, drop);
    forall p | 0 <= p < 81 && s[p] ensures m1[p] == m[p] {
      if p in cells {
        assert m[p] == [m[p][0]];
        WithoutNothing(m[p], drop);
      }
    }
    ShrinkConsistent(m, m1, s);
  }

  /** A completed Sudoku grid: 81 values from 1 to 9, no two peers alike. */
  ghost predicate IsGrid(v: seq<int>)
  {
    |v| == 81 && (forall p :: 0 <= p < 81 ==> 1 <= v[p] <= 9) &&
    forall p, q :: 0 <= p < 81 && 0 <= q < 81 && Peers(p, q) ==> v[p] != v[q]
  }

  /** `[self.cells[i].get_value() for i in range(81)]` once every cell is solved. */
  function Values(m: seq<seq<int>>): (v: seq<int>)
    requires |m| == 81 && forall p :: 0 <= p < 81 ==> |m[p]| == 1
    ensures |v| == 81 && forall p :: 0 <= p < 81 ==> m[p] == [v[p]]
  {
    seq(81, p requires 0 <= p < 81 => m[p][0])
  }

  /** A consistent board whose every cell is solved spells a completed grid. */
  lemma {:induction false} SolvedGrid(m: seq<seq<int>>, s: seq<bool>)
    requires WellFormed(m, s) && Consistent(m, s) && forall p :: 0 <= p < 81 ==> s[p]
    ensures forall p :: 0 <= p < 81 ==> |m[p]| == 1
    ensures IsGrid(Values(m))
  {
    var v := Values(m);
    forall p | 0 <= p < 81 ensures 1 <= v[p] <= 9 {
      assert m[p][0] == v[p];
    }
    forall p, q | 0 <= p < 81 && 0 <= q < 81 && Peers(p, q) ensures v[p] != v[q] {
      assert m[p][0] !in m[q] && m[q][0] in m[q];
    }
  }

  /** Between two consistent boards where marks only went and cells only got solved, solved cells keep their value. */
  lemma {:induction false} SolvedKept(m0: seq<seq<int>>, s0: seq<bool>, m1: seq<seq<int>>, s1: seq<bool>)
    requires |m0| == 81 && |s0| == 81 && |m1| == 81 && |s1| == 81
    requires Consistent(m0, s0) && Consistent(m1, s1) && Shrinks(m0, m1) && Grows(s0, s1)
    ensures forall p :: 0 <= p < 81 && s0[p] ==> m1[p] == m0[p]
  {
    forall p | 0 <= p < 81 && s0[p] ensures m1[p] == m0[p] {
      assert s1[p];
      assert |m0[p]| == 1 && |m1[p]| == 1;
      var x := m1[p][0];
      assert x in m1[p];
      assert x in m0[p];
      assert x == m0[p][0];
      assert m0[p] == [m0[p][0]] && m1[p] == [m1[p][0]];
    }
  }

  /**
   * A pass of the single rules over a list `ws` holding every unsolved cell
   * solves the cells that had one mark: if there was one, fewer cells are
   * left unsolved.
   */
  lemma {:induction false} SinglesProgress(m0: seq<seq<int>>, s0: seq<bool>, s1: seq<bool>, ws: seq<int>)
    requires |m0| == 81 && |s0| == 81 && |s1| == 81 && Grows(s0, s1)
    requires forall p :: 0 <= p < 81 && !s0[p] ==> p in ws
    requires forall p :: p in ws && 0 <= p < 81 && |m0[p]| == 1 ==> s1[p]
    ensures |Unsolved(s1)| <= |Unsolved(s0)|
    ensures Singles(m0, s0) != [] ==> |Unsolved(s1)| < |Unsolved(s0)|
  {
    UnsolvedShrinks(s0, s1);
    var singles := Singles(m0, s0);
    if singles != [] {
      var q := singles[0];
      assert !s0[q] && s1[q] by {
        assert q in singles;
        SinglesSpec(m0, s0);
      }
    }
  }
}
