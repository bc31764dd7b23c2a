/**
 * `Puzzle`: the 81 cells of a board and the solving rules that update them
 * in place.
 */
module Sudoku {
  import opened Lists
  import opened Neighbors
  import opened Cells
  import opened Board
  import opened Subsets
  import opened Solutions
  import opened Loops

  /** How `Puzzle.solve` ends. */
  datatype Outcome =
    | Solution(values: seq<int>)  // the list of the 81 cell values
    | Stuck                       // `None`: a whole pass solved no cell
    | Contradiction               // IndexError: a naked single had lost its only mark

  /** How one turn of the loop of `solve` ends. */
  datatype PassEnd =
    | Again      // `continue`, or a pass that solved cells but not all of them
    | Finished   // a pass that left no cell unsolved
    | Unchanged  // `return None`
    | Failed     // IndexError

  /**
   * The termination measure of the loop of `solve`: a turn either solves a
   * cell, lowers `unsolved_before`, or turns new singles into an empty list.
   */
  ghost function Rank(before: int, m: seq<seq<int>>, s: seq<bool>): int
    requires |m| == 81 && |s| == 81
  {
    3 * before + 2 * |Unsolved(s)| + (if Singles(m, s) == [] then 1 else 0)
  }

  /**
   * How the turn ends after the pair and triple rules: `found` says that
   * they left new singles, `after` is `len(working_set)` and `before` is
   * `unsolved_before`.
   */
  function TurnEnd(found: bool, after: int, before: int): PassEnd
  {
    if found then Again
    else if after == before then Unchanged
    else if after == 0 then Finished
    else Again
  }

  /** `ws` lists board cells and holds every cell unsolved in `s`. */
  ghost predicate Covering(ws: seq<int>, s: seq<bool>)
    requires |s| == 81
  {
    (forall i :: 0 <= i < |ws| ==> IsPos(ws[i])) && forall p :: 0 <= p < 81 && !s[p] ==> p in ws
  }

  /**
   * What the loop of `solve` needs from a turn that went from the marks
   * `m0`, `s0` with `unsolved_before` equal to `before` to the marks `m`,
   * `s` with the new `working_set` and `unsolved_before` equal to `ws'`
   * and `before'`: a turn that goes on leaves a working set holding every
   * unsolved cell and a lower rank; a turn that gives up left no singles;
   * a finished turn left no cell unsolved; and with no cell unsolved the
   * turn gives up.
   */
  ghost predicate Advances(before: int, m0: seq<seq<int>>, s0: seq<bool>,
                           end: PassEnd, ws': seq<int>, before': int, m: seq<seq<int>>, s: seq<bool>)
    requires |m0| == 81 && |s0| == 81 && |m| == 81 && |s| == 81
  {
    (end.Again? || end.Finished? ==>
      Covering(ws', s) && |Unsolved(s)| <= before' && |ws'| <= before' &&
      0 <= Rank(before', m, s) < Rank(before, m0, s0)) &&
    (end.Unchanged? ==> Singles(m, s) == []) &&
    (end.Finished? ==> Unsolved(s) == [] && before > 0) &&
    (before == 0 ==> end.Unchanged?)
  }

  /**
   * A turn that ends in the progress check advances: either it found new
   * singles where there were none, or fewer cells are unsolved than
   * `unsolved_before` says, or it gives up.
   */
  lemma TurnProgress(m0: seq<seq<int>>, m: seq<seq<int>>, s: seq<bool>, before: int)
    requires |m0| == 81 && |m| == 81 && |s| == 81
    requires Singles(m0, s) == [] && |Unsolved(s)| <= before
    ensures var found := Singles(m, s) != [];
            Advances(before, m0, s, TurnEnd(found, |Unsolved(s)|, before), Unsolved(s),
                     if found then before else |Unsolved(s)|, m, s)
  {
    UnsolvedSpec(s);
  }

  /** The state the loop of `solve` carries from one turn to the next, and how the turn ended. */
  datatype Turn = Turn(end: PassEnd, marks: seq<seq<int>>, solved: seq<bool>, ws: seq<int>, before: int)

  /**
   * One turn of the loop of `solve` from the marks `m`, the solved flags
   * `s`, `working_set` equal to `ws` and `unsolved_before` equal to
   * `before`: `process_singles`, and unless it raised or found new
   * singles, the pair and triple rules over the unsolved cells and the
   * progress check.
   */
  function TurnOf(m: seq<seq<int>>, s: seq<bool>, ws: seq<int>, before: int): Turn
    requires |m| == 81 && |s| == 81 && forall k :: 0 <= k < |ws| ==> IsPos(ws[k])
  {
    var p := SinglesProcessed(m, s, ws);
    if !p.ok then Turn(Failed, p.marks, p.solved, ws, before)
    else if Singles(p.marks, p.solved) != [] then Turn(Again, p.marks, p.solved, ws, before)
    else
      var m' := Reduction(p.marks, p.solved);
      var found := Singles(m', p.solved) != [];
      var after := |Unsolved(p.solved)|;
      Turn(TurnEnd(found, after, before), m', p.solved, Unsolved(p.solved), if found then before else after)
  }

  /**
   * A turn that ends at the first `continue` advances: the single rules
   * solved every cell that had one mark, so either fewer cells are
   * unsolved or there were no singles before and there are now.
   */
  lemma SinglesAdvance(m0: seq<seq<int>>, s0: seq<bool>, m: seq<seq<int>>, s: seq<bool>, ws: seq<int>, before: int)
    requires |m0| == 81 && |s0| == 81 && |m| == 81 && |s| == 81
    requires Covering(ws, s0) && Grows(s0, s) && |Unsolved(s0)| <= before && |ws| <= before
    requires forall p :: p in ws && 0 <= p < 81 && |m0[p]| == 1 ==> s[p]
    requires Singles(m, s) != []
    ensures Advances(before, m0, s0, Again, ws, before, m, s)
  {
    SinglesProgress(m0, s0, s, ws);
  }

  class Puzzle {
    /** `cells[p].PencilMarks` for each cell index `p`. */
    var marks: array<seq<int>>
    /** `cells[p].solved` for each cell index `p`. */
    var solved: array<bool>

    ghost predicate Valid()
      reads this, marks, solved
    {
      marks.Length == 81 && solved.Length == 81 && WellFormed(marks[..], solved[..])
    }

    ghost predicate IsConsistent()
      reads this, marks, solved
      requires Valid()
    {
      Consistent(marks[..], solved[..])
    }

    /** `Puzzle.__init__`: all cells unsolved with the nine digits, then each clue placed in turn. */
    constructor (seed: seq<Clue>)
      requires CluesInRange(seed)
      ensures Valid() && fresh(marks) && fresh(solved)
      ensures marks[..] == Seeded(seed) && solved[..] == SeededSolved(seed)
      ensures WellPosed(seed) ==> IsConsistent()
    {
      marks := new seq<int>[81](p => Digits());
      solved := new bool[81](p => false);
      new;
      DigitsSpec();
      assert marks[..] == Seeded(seed[..0]);
      assert solved[..] == SeededSolved(seed[..0]);
      var k := 0;
      while k < |seed|
        invariant 0 <= k <= |seed|
        invariant fresh(marks) && fresh(solved)
        invariant Valid()
        invariant marks[..] == Seeded(seed[..k]) && solved[..] == SeededSolved(seed[..k])
      {
        SeededStep(seed, k);
        Place(ClueCell(seed[k]), seed[k].value);
        k := k + 1;
      }
      assert seed[..k] == seed;
      if WellPosed(seed) {
        SeededClosedForm(seed);
        InitialConsistent(seed);
      }
    }

    /** `GridCell.solve`: the cell keeps the single mark `v` and is marked solved. */
    method SolveCell(p: int, v: int)
      requires Valid() && IsPos(p) && 1 <= v <= 9
      modifies marks, solved
      ensures Valid()
      ensures marks[..] == old(marks[..])[p := [v]] && solved[..] == old(solved[..])[p := true]
    {
      marks[p] := [v];
      solved[p] := true;
    }

    /** `for j in cells: self.cells[j].remove_mark(v)` over a list without repeats. */
    method RemoveMarkFrom(cells: seq<int>, v: int)
      requires Valid() && Distinct(cells) && forall i :: 0 <= i < |cells| ==> IsPos(cells[i])
      modifies marks
      ensures Valid()
      ensures marks[..] == Swept(old(marks[..]), Elements(cells), v)
    {
      ghost var m0 := marks[..];
      ghost var done: set<int> := {};
      var i := 0;
      while i < |cells|
        invariant 0 <= i <= |cells|
        invariant done == Elements(cells[..i])
        invariant WellFormed(marks[..], solved[..])
        invariant marks[..] == Swept(m0, done, v)
      {
        var j := cells[i];
        ElementsStep(cells, i);
        SweptStep(m0, done, j, v);
        RemoveMarkSpec(marks[j], v);
        UpdateWellFormed(marks[..], solved[..], j, RemoveMark(marks[j], v));
        marks[j] := RemoveMark(marks[j], v);
        done := done + {j};
        i := i + 1;
      }
      assert cells[..i] == cells;
    }

    /** `for j in cells[q].neighbors.aggregate(): cells[j].remove_mark(v)`. */
    method RemoveFromPeers(q: int, v: int)
      requires Valid() && IsPos(q)
      modifies marks
      ensures Valid()
      ensures marks[..] == Purged(old(marks[..]), q, v)
    {
      var peers := Aggregate(q);
      ghost var done := Elements(peers);
      AggregateCells(q);
      RemoveMarkFrom(peers, v);
      PurgedIsSwept(old(marks[..]), q, v, done);
    }

    /** `cells[q].solve(v)` followed by `remove_mark(v)` on each cell of its `aggregate()`. */
    method Place(q: int, v: int)
      requires Valid() && IsPos(q) && 1 <= v <= 9
      modifies marks, solved
      ensures Valid()
      ensures marks[..] == Placed(old(marks[..]), q, v) && solved[..] == old(solved[..])[q := true]
    {
      SolveCell(q, v);
      RemoveFromPeers(q, v);
    }

    /**
     * The inner loop of the hidden-single search: the first mark of `p`, in
     * list order, that no other cell of its row, its column or its box holds.
     */
    method HiddenSingle(p: int) returns (h: Option<int>)
      requires Valid() && IsPos(p)
      ensures h.Some? ==> (exists k :: 0 <= k < |marks[p]| && marks[p][k] == h.value &&
                             IsHidden(marks[..], p, h.value) &&
                             forall i :: 0 <= i < k ==> !IsHidden(marks[..], p, marks[p][i]))
      ensures h.None? ==> forall i :: 0 <= i < |marks[p]| ==> !IsHidden(marks[..], p, marks[p][i])
      ensures h == FirstHidden(marks[..], p, 0)
    {
      var m := marks[..];
      var k := 0;
      while k < |m[p]|
        invariant 0 <= k <= |m[p]|
        invariant FirstHidden(m, p, k) == FirstHidden(m, p, 0)
      {
        var j := m[p][k];
        if IsHidden(m, p, j) {
          FirstHiddenSpec(m, p);
          return Some(j);
        }
        k := k + 1;
      }
      FirstHiddenSpec(m, p);
      return None;
    }

    /**
     * The body of the first loop of `process_singles` for the cell `c`: its
     * first hidden single, if it has one, becomes its only mark.
     */
    method CollapseCell(c: int) returns (h: Option<int>)
      requires Valid() && IsPos(c)
      modifies marks
      ensures Valid()
      ensures h == FirstHidden(old(marks[..]), c, 0) && marks[..] == Collapse(old(marks[..]), c)
      ensures h.Some? ==> h.value in old(marks[c]) && IsHidden(old(marks[..]), c, h.value)
      ensures Shrinks(old(marks[..]), marks[..]) && KeepsSolutions(old(marks[..]), marks[..])
      ensures ChangedWithin(old(marks[..]), marks[..], [c]) && ChangedToSingles(old(marks[..]), marks[..])
    {
      ghost var m := marks[..];
      h := HiddenSingle(c);
      if h.Some? {
        HiddenKeeps(m, solved[..], c, h.value);
        Collapsed(m, solved[..], c, h.value);
        marks[c] := [h.value];
        assert marks[..] == m[c := [h.value]];
      }
    }

    /**
     * The first loop of `process_singles`: each cell of `ws` with several
     * marks that has a hidden single keeps only that mark.
     */
    method CollapseHiddenSingles(ws: seq<int>)
      requires Valid() && forall i :: 0 <= i < |ws| ==> IsPos(ws[i])
      modifies marks
      ensures Valid() && marks[..] == HiddenCollapsed(old(marks[..]), ws)
      ensures Shrinks(old(marks[..]), marks[..])
      ensures forall p :: 0 <= p < 81 && |old(marks[p])| <= 1 ==> marks[p] == old(marks[p])
      ensures forall p :: 0 <= p < 81 && marks[p] != old(marks[p]) ==> p in ws && |marks[p]| == 1
      ensures old(IsConsistent()) ==> IsConsistent()
      ensures KeepsSolutions(old(marks[..]), marks[..])
    {
      var multi := Filter(ws, HasMoreMarks(marks[..]));
      FilterCells(ws, HasMoreMarks(marks[..]));
      ghost var m0 := marks[..];
      var i := 0;
      while i < |multi|
        invariant 0 <= i <= |multi|
        invariant Valid() && Shrinks(m0, marks[..])
        invariant ChangedWithin(m0, marks[..], multi[..i]) && ChangedToSingles(m0, marks[..])
        invariant KeepsSolutions(m0, marks[..])
        invariant CollapsedFrom(marks[..], multi, i) == CollapsedFrom(m0, multi, 0)
      {
        var c := multi[i];
        ghost var m1 := marks[..];
        var h := CollapseCell(c);
        ShrinksTrans(m0, m1, marks[..]);
        KeepsTrans(m0, m1, marks[..]);
        SinglesTrans(m0, m1, marks[..], multi[..i], c);
        PrefixStep(multi, i);
        i := i + 1;
      }
      assert multi[..i] == multi;
      forall p | 0 <= p < 81 && marks[p] != m0[p] ensures p in ws && |marks[p]| == 1 && |m0[p]| > 1 {
        assert marks[..][p] == marks[p];
        assert p in multi;
      }
      assert Consistent(m0, solved[..]) ==> Consistent(marks[..], solved[..]) by {
        if Consistent(m0, solved[..]) {
          ShrinkConsistent(m0, marks[..], solved[..]);
        }
      }
    }

    /**
     * The second loop of `process_singles` over the cells `naked` that were
     * down to one mark: solve each with its mark and remove that mark from
     * its peers. `ok` is false where the source raises IndexError: a cell
     * lost its only mark to an earlier one.
     */
    method SolveEach(naked: seq<int>) returns (ok: bool)
      requires Valid()
      requires forall i :: 0 <= i < |naked| ==> 0 <= naked[i] < 81
      requires forall i :: 0 <= i < |naked| ==> |marks[naked[i]]| == 1
      modifies marks, solved
      ensures Valid()
      ensures Placing(marks[..], solved[..], ok) == PlacedFrom(old(marks[..]), old(solved[..]), naked, 0)
      ensures Shrinks(old(marks[..]), marks[..]) && Grows(old(solved[..]), solved[..])
      ensures forall p :: 0 <= p < 81 && solved[p] && !old(solved[p]) ==> p in naked
      ensures ok ==> forall k :: 0 <= k < |naked| ==> solved[naked[k]]
      ensures ok && old(IsConsistent()) ==> IsConsistent()
      ensures !ok ==> exists p :: p in naked && 0 <= p < 81 && marks[p] == []
      ensures KeepsSolutions(old(marks[..]), marks[..])
    {
      ghost var m0, s0 := marks[..], solved[..];
      PlacedFromSpec(m0, s0, naked, 0, Consistent(m0, s0));
      var i := 0;
      while i < |naked|
        invariant 0 <= i <= |naked|
        invariant Valid()
        invariant PlacedFrom(marks[..], solved[..], naked, i) == PlacedFrom(m0, s0, naked, 0)
      {
        var c := naked[i];
        assert marks[..][c] == marks[c];
        if marks[c] == [] {
          return false;
        }
        var v := marks[c][0];
        assert IsMarkList(marks[..][c]);
        Place(c, v);
        i := i + 1;
      }
      return true;
    }

    /** The naked-single part of `process_singles`: every cell of `ws` down to one mark is solved. */
    method SolveNakedSingles(ws: seq<int>) returns (ok: bool)
      requires Valid() && forall i :: 0 <= i < |ws| ==> IsPos(ws[i])
      modifies marks, solved
      ensures Valid()
      ensures Placing(marks[..], solved[..], ok) == NakedSolved(old(marks[..]), old(solved[..]), ws)
      ensures Shrinks(old(marks[..]), marks[..]) && Grows(old(solved[..]), solved[..])
      ensures forall p :: 0 <= p < 81 && solved[p] && !old(solved[p]) ==> p in ws && |old(marks[p])| == 1
      ensures ok ==> forall p :: p in ws && 0 <= p < 81 && |old(marks[p])| == 1 ==> solved[p]
      ensures ok && old(IsConsistent()) ==> IsConsistent()
      ensures !ok ==> exists p :: p in ws && 0 <= p < 81 && marks[p] == []
      ensures KeepsSolutions(old(marks[..]), marks[..])
    {
      var naked := Filter(ws, HasOneMark(marks[..]));
      FilterCells(ws, HasOneMark(marks[..]));
      ghost var m0 := marks[..];
      assert forall k :: 0 <= k < |naked| ==> |marks[naked[k]]| == 1 by {
        forall k | 0 <= k < |naked| ensures |marks[naked[k]]| == 1 {
          assert naked[k] in naked;
        }
      }
      ok := SolveEach(naked);
      assert ok ==> forall p :: p in ws && 0 <= p < 81 && |old(marks[p])| == 1 ==> solved[p] by {
        if ok {
          forall p | p in ws && 0 <= p < 81 && |old(marks[p])| == 1 ensures solved[p] {
            assert old(marks[p]) == m0[p];
            assert p in naked;
            var k :| 0 <= k < |naked| && naked[k] == p;
          }
        }
      }
    }

    /**
     * `process_singles`: collapse the hidden singles among the cells of `ws`,
     * then solve the cells of `ws` that are down to one mark. `singles` are
     * the unsolved cells left with one mark.
     */
    method ProcessSingles(ws: seq<int>) returns (ok: bool, singles: seq<int>)
      requires Valid() && forall i :: 0 <= i < |ws| ==> IsPos(ws[i])
      modifies marks, solved
      ensures Valid()
      ensures Placing(marks[..], solved[..], ok) == SinglesProcessed(old(marks[..]), old(solved[..]), ws)
      ensures Shrinks(old(marks[..]), marks[..]) && Grows(old(solved[..]), solved[..])
      ensures forall p :: 0 <= p < 81 && solved[p] && !old(solved[p]) ==>
                p in ws && |HiddenCollapsed(old(marks[..]), ws)[p]| == 1
      ensures ok && old(IsConsistent()) ==> IsConsistent()
      ensures ok ==> forall p :: p in ws && 0 <= p < 81 && |HiddenCollapsed(old(marks[..]), ws)[p]| == 1 ==> solved[p]
      ensures ok ==> forall p :: p in ws && 0 <= p < 81 && |old(marks[p])| == 1 ==> solved[p]
      ensures ok ==> singles == Singles(marks[..], solved[..])
      ensures !ok ==> exists p :: p in ws && 0 <= p < 81 && marks[p] == []
      ensures KeepsSolutions(old(marks[..]), marks[..])
    {
      ghost var m0 := marks[..];
      CollapseHiddenSingles(ws);
      ghost var m1 := marks[..];
      ok := SolveNakedSingles(ws);
      ShrinksTrans(m0, m1, marks[..]);
      KeepsTrans(m0, m1, marks[..]);
      singles := if ok then Singles(marks[..], solved[..]) else [];
    }

    /**
     * `for mark in drop: cell.remove_mark(mark)` on the cell `p`. The marks
     * are visited in ascending order; marks outside 1..9 are never on a list.
     */
    method RemoveMarks(p: int, drop: set<int>)
      requires Valid() && IsPos(p)
      modifies marks
      ensures Valid()
      ensures marks[..] == old(marks[..])[p := Without(old(marks[p]), drop)]
    {
      var cell := marks[p];
      ghost var s0 := cell;
      assert IsMarkList(s0);
      var x := 1;
      while x < 10
        invariant 1 <= x <= 10
        invariant unchanged(marks)
        invariant IsMarkList(cell)
        invariant forall y :: y in cell <==> y in s0 && !(y in drop && y < x)
      {
        if x in drop {
          RemoveMarkSpec(cell, x);
          cell := RemoveMark(cell, x);
        }
        x := x + 1;
      }
      WithoutSpec(s0, drop);
      SortedUnique(cell, Without(s0, drop));
      marks[p] := cell;
    }

    /**
     * `for cell in cells: for mark in drop: cell.remove_mark(mark)`. The
     * cells are visited in ascending order.
     */
    method PruneCells(cells: set<int>, drop: set<int>)
      requires Valid() && forall p :: p in cells ==> 0 <= p < 81
      modifies marks
      ensures Valid()
      ensures marks[..] == Pruned(old(marks[..]), cells, drop)
    {
      ghost var m0 := marks[..];
      ghost var done: set<int> := {};
      var k := 0;
      while k < 81
        invariant 0 <= k <= 81
        invariant forall q :: q in done <==> q in cells && q < k
        invariant Valid()
        invariant marks[..] == Pruned(m0, done, drop)
      {
        if k in cells {
          PrunedStep(m0, done, k, drop);
          RemoveMarks(k, drop);
          done := done + {k};
        }
        k := k + 1;
      }
      assert forall q :: q in done <==> q in cells;
      assert done == cells;
    }

    /** The body of the `combinations` loop of `reduce_r` for the tuple `t` of a unit `kind`. */
    method ReduceTuple(kind: Unit, t: seq<int>, r: int)
      requires Valid() && |t| == r > 0
      requires forall i :: 0 <= i < |t| ==> IsPos(t[i]) && UnitIndex(kind, t[i]) == UnitIndex(kind, t[0])
      modifies marks
      ensures Valid()
      ensures marks[..] == Reduced(old(marks[..]), kind, t, r)
      ensures Shrinks(old(marks[..]), marks[..])
      ensures ChangedWithin(old(marks[..]), marks[..], t)
      ensures KeepsSolutions(old(marks[..]), marks[..])
    {
      ghost var m0 := marks[..];
      ReducedKeeps(m0, solved[..], kind, t, r);
      ReducedBranches(m0, kind, t, r);
      ReducedSpec(m0, solved[..], kind, t, r);
      var shared := Shared(marks[..], t);
      var exclusive := Exclusive(marks[..], kind, t);
      if |exclusive| == r && |shared| > |exclusive| {
        PruneCells(Elements(t), shared - exclusive);
      } else if |exclusive| == r {
        MutualCells(kind, t);
        PruneCells(Mutual(kind, t), shared);
      }
    }

    /** `for cell_tuple in combinations(cells, 2)`: every pair, in lexicographic order. */
    method ReducePairs(kind: Unit, u: int, cells: seq<int>)
      requires Valid() && InUnitAll(kind, u, cells)
      modifies marks
      ensures Valid() && marks[..] == PairsFrom(old(marks[..]), kind, cells, 0, 1)
      ensures Shrinks(old(marks[..]), marks[..]) && ChangedWithin(old(marks[..]), marks[..], cells)
      ensures KeepsSolutions(old(marks[..]), marks[..])
    {
      ghost var m0 := marks[..];
      PairsFromSpec(m0, solved[..], kind, u, cells, 0, 1);
      var a := 0;
      while a < |cells|
        invariant 0 <= a <= |cells|
        invariant Valid()
        invariant PairsFrom(marks[..], kind, cells, a, a + 1) == PairsFrom(m0, kind, cells, 0, 1)
      {
        ReducePartners(kind, u, cells, a);
        a := a + 1;
      }
    }

    /** The pairs of `combinations(cells, 2)` whose first cell is `cells[a]`. */
    method ReducePartners(kind: Unit, u: int, cells: seq<int>, a: int)
      requires Valid() && InUnitAll(kind, u, cells) && 0 <= a < |cells|
      modifies marks
      ensures Valid()
      ensures PairsFrom(marks[..], kind, cells, a + 1, a + 2) == PairsFrom(old(marks[..]), kind, cells, a, a + 1)
    {
      ghost var m0 := marks[..];
      var b := a + 1;
      while b < |cells|
        invariant a + 1 <= b <= |cells|
        invariant Valid()
        invariant PairsFrom(marks[..], kind, cells, a, b) == PairsFrom(m0, kind, cells, a, a + 1)
      {
        PairStep(kind, u, cells, a, b);
        b := b + 1;
      }
    }

    /** The pair `cells[a]`, `cells[b]` of `combinations(cells, 2)`. */
    method PairStep(kind: Unit, u: int, cells: seq<int>, a: int, b: int)
      requires Valid() && InUnitAll(kind, u, cells) && 0 <= a < b < |cells|
      modifies marks
      ensures Valid()
      ensures PairsFrom(marks[..], kind, cells, a, b + 1) == PairsFrom(old(marks[..]), kind, cells, a, b)
    {
      ghost var m0 := marks[..];
      var t := [cells[a], cells[b]];
      ReduceTuple(kind, t, 2);
      assert PairsFrom(m0, kind, cells, a, b) == PairThen(m0, kind, cells, a, b);
    }

    /** `for cell_tuple in combinations(cells, 3)`: every triple, in lexicographic order. */
    method ReduceTriples(kind: Unit, u: int, cells: seq<int>)
      requires Valid() && InUnitAll(kind, u, cells)
      modifies marks
      ensures Valid() && marks[..] == TriplesFrom(old(marks[..]), kind, cells, 0, 1, 2)
      ensures Shrinks(old(marks[..]), marks[..]) && ChangedWithin(old(marks[..]), marks[..], cells)
      ensures KeepsSolutions(old(marks[..]), marks[..])
    {
      ghost var m0 := marks[..];
      TriplesFromSpec(m0, solved[..], kind, u, cells, 0, 1, 2);
      var a := 0;
      while a < |cells|
        invariant 0 <= a <= |cells|
        invariant Valid()
        invariant TriplesFrom(marks[..], kind, cells, a, a + 1, a + 2) == TriplesFrom(m0, kind, cells, 0, 1, 2)
      {
        ReduceSeconds(kind, u, cells, a);
        a := a + 1;
      }
    }

    /** The triples of `combinations(cells, 3)` whose first cell is `cells[a]`. */
    method ReduceSeconds(kind: Unit, u: int, cells: seq<int>, a: int)
      requires Valid() && InUnitAll(kind, u, cells) && 0 <= a < |cells|
      modifies marks
      ensures Valid()
      ensures TriplesFrom(marks[..], kind, cells, a + 1, a + 2, a + 3) == TriplesFrom(old(marks[..]), kind, cells, a, a + 1, a + 2)
    {
      ghost var m0 := marks[..];
      var b := a + 1;
      while b < |cells|
        invariant a + 1 <= b <= |cells|
        invariant Valid()
        invariant TriplesFrom(marks[..], kind, cells, a, b, b + 1) == TriplesFrom(m0, kind, cells, a, a + 1, a + 2)
      {
        ReduceThirds(kind, u, cells, a, b);
        b := b + 1;
      }
    }

    /** The triples of `combinations(cells, 3)` whose first two cells are `cells[a]` and `cells[b]`. */
    method ReduceThirds(kind: Unit, u: int, cells: seq<int>, a: int, b: int)
      requires Valid() && InUnitAll(kind, u, cells) && 0 <= a < b < |cells|
      modifies marks
      ensures Valid()
      ensures TriplesFrom(marks[..], kind, cells, a, b + 1, b + 2) == TriplesFrom(old(marks[..]), kind, cells, a, b, b + 1)
    {
      ghost var m0 := marks[..];
      var c := b + 1;
      assert TriplesFrom(marks[..], kind, cells, a, b, c) == TriplesFrom(m0, kind, cells, a, b, b + 1);
      while c < |cells|
        invariant b + 1 <= c <= |cells|
        invariant Valid()
        invariant TriplesFrom(marks[..], kind, cells, a, b, c) == TriplesFrom(m0, kind, cells, a, b, b + 1)
      {
        TripleStep(kind, u, cells, a, b, c);
        c := c + 1;
      }
      assert TriplesFrom(marks[..], kind, cells, a, b, c) == TriplesFrom(marks[..], kind, cells, a, b + 1, b + 2);
    }

    /** The triple `cells[a]`, `cells[b]`, `cells[c]` of `combinations(cells, 3)`. */
    method TripleStep(kind: Unit, u: int, cells: seq<int>, a: int, b: int, c: int)
      requires Valid() && InUnitAll(kind, u, cells) && 0 <= a < b < c < |cells|
      modifies marks
      ensures Valid()
      ensures TriplesFrom(marks[..], kind, cells, a, b, c + 1) == TriplesFrom(old(marks[..]), kind, cells, a, b, c)
    {
      ghost var m0 := marks[..];
      var t := [cells[a], cells[b], cells[c]];
      ReduceTuple(kind, t, 3);
      assert TriplesFrom(m0, kind, cells, a, b, c) == TripleThen(m0, kind, cells, a, b, c);
    }

    /**
     * One unit of `reduce_r`: the cells of `ws` in unit `u` of kind `kind`
     * with more than one mark, and every tuple of `r` of them.
     */
    method ReduceUnit(kind: Unit, u: int, ws: seq<int>, r: int)
      requires Valid() && (r == 2 || r == 3)
      requires Ascending(ws) && forall i :: 0 <= i < |ws| ==> IsPos(ws[i])
      modifies marks
      ensures Valid() && marks[..] == UnitReduced(old(marks[..]), kind, u, ws, r)
      ensures Shrinks(old(marks[..]), marks[..])
      ensures forall p :: 0 <= p < 81 && marks[p] != old(marks[p]) ==> p in ws && |old(marks[p])| > 1
      ensures old(IsConsistent()) ==> IsConsistent()
      ensures KeepsSolutions(old(marks[..]), marks[..])
    {
      ghost var m0 := marks[..];
      var cells := Filter(ws, InUnit(kind, u, marks[..]));
      FilterAscending(ws, InUnit(kind, u, marks[..]));
      forall i | 0 <= i < |cells| ensures 0 <= cells[i] < 81 && UnitIndex(kind, cells[i]) == u {
        assert cells[i] in cells;
      }
      if r == 2 {
        ReducePairs(kind, u, cells);
      } else {
        ReduceTriples(kind, u, cells);
      }
      forall p | 0 <= p < 81 && marks[p] != m0[p] ensures p in ws && |m0[p]| > 1 {
        assert marks[..][p] == marks[p];
        assert p in cells;
      }
      assert Consistent(m0, solved[..]) ==> Consistent(marks[..], solved[..]) by {
        if Consistent(m0, solved[..]) {
          ShrinkConsistent(m0, marks[..], solved[..]);
        }
      }
    }

    /** The body of the loop of `process_pointing_pairs` for the pair `a`, `b`. */
    method PointingPair(a: int, b: int)
      requires Valid() && IsPos(a) && IsPos(b)
      modifies marks
      ensures Valid()
      ensures marks[..] == Pointed(old(marks[..]), a, b)
      ensures Shrinks(old(marks[..]), marks[..])
    {
      ghost var m0, s0 := marks[..], solved[..];
      PointedSpec(m0, s0, a, b);
      var exclusive := Exclusive(marks[..], Box, [a, b]);
      if |exclusive| == 1 && RowOf(a) == RowOf(b) {
        assert Pointed(m0, a, b) == Pruned(m0, Mutual(Row, [a, b]), exclusive);
        MutualCells(Row, [a, b]);
        PruneCells(Mutual(Row, [a, b]), exclusive);
      } else if |exclusive| == 1 && ColumnOf(a) == ColumnOf(b) {
        assert Pointed(m0, a, b) == Pruned(m0, Mutual(Column, [a, b]), exclusive);
        MutualCells(Column, [a, b]);
        PruneCells(Mutual(Column, [a, b]), exclusive);
      } else {
        assert Pointed(m0, a, b) == m0;
      }
    }

    /**
     * `process_pointing_pairs`: every pair of cells of `ws`, in
     * lexicographic order, that share a box and a row or a column.
     */
    method PointingPairs(ws: seq<int>)
      requires Valid() && forall i :: 0 <= i < |ws| ==> IsPos(ws[i])
      modifies marks
      ensures Valid() && marks[..] == PointedFrom(old(marks[..]), ws, 0, 1)
      ensures Shrinks(old(marks[..]), marks[..]) && KeepsSolutions(old(marks[..]), marks[..])
      ensures old(IsConsistent()) ==> IsConsistent()
    {
      ghost var m0 := marks[..];
      var i := 0;
      while i < |ws|
        invariant 0 <= i <= |ws|
        invariant Valid()
        invariant PointedFrom(marks[..], ws, i, i + 1) == PointedFrom(m0, ws, 0, 1)
      {
        PointingPartners(ws, i);
        i := i + 1;
      }
      PointedFromSpec(m0, solved[..], ws, 0, 1);
    }

    /** The pairs of `combinations(ws, 2)` whose first cell is `ws[i]`. */
    method PointingPartners(ws: seq<int>, i: int)
      requires Valid() && 0 <= i < |ws| && forall k :: 0 <= k < |ws| ==> IsPos(ws[k])
      modifies marks
      ensures Valid()
      ensures PointedFrom(marks[..], ws, i + 1, i + 2) == PointedFrom(old(marks[..]), ws, i, i + 1)
    {
      ghost var m0 := marks[..];
      var j := i + 1;
      while j < |ws|
        invariant i + 1 <= j <= |ws|
        invariant Valid()
        invariant PointedFrom(marks[..], ws, i, j) == PointedFrom(m0, ws, i, i + 1)
      {
        PointingStep(ws, i, j);
        j := j + 1;
      }
    }

    /** The pair at positions `i`, `j` of `ws`, examined when it is aligned. */
    method PointingStep(ws: seq<int>, i: int, j: int)
      requires Valid() && 0 <= i < j < |ws| && IsPos(ws[i]) && IsPos(ws[j])
      modifies marks
      ensures Valid()
      ensures PointedFrom(marks[..], ws, i, j + 1) == PointedFrom(old(marks[..]), ws, i, j)
    {
      var a, b := ws[i], ws[j];
      if Aligned(a, b) {
        PointingPair(a, b);
      }
    }

    /**
     * `reduce_r`: the subset rule over every row, column and box, then the
     * pointing pairs; `singles` are the unsolved cells left with one mark.
     */
    method ReduceR(ws: seq<int>, r: int) returns (singles: seq<int>)
      requires Valid() && (r == 2 || r == 3)
      requires Ascending(ws) && forall i :: 0 <= i < |ws| ==> IsPos(ws[i])
      modifies marks
      ensures Valid() && marks[..] == ReducedAll(old(marks[..]), ws, r)
      ensures Shrinks(old(marks[..]), marks[..])
      ensures old(IsConsistent()) ==> IsConsistent()
      ensures singles == Singles(marks[..], solved[..])
      ensures KeepsSolutions(old(marks[..]), marks[..])
    {
      ghost var m0 := marks[..];
      ghost var wasConsistent := Consistent(m0, solved[..]);
      var u := 0;
      while u < 9
        invariant 0 <= u <= 9
        invariant Valid() && Shrinks(m0, marks[..])
        invariant wasConsistent ==> Consistent(marks[..], solved[..])
        invariant KeepsSolutions(m0, marks[..])
        invariant UnitsFrom(marks[..], ws, r, u) == UnitsFrom(m0, ws, r, 0)
      {
        ghost var m1 := marks[..];
        ReduceUnit(Row, u, ws, r);
        ghost var m2 := marks[..];
        ReduceUnit(Column, u, ws, r);
        ghost var m3 := marks[..];
        ReduceUnit(Box, u, ws, r);
        ShrinksTrans(m1, m2, m3);
        ShrinksTrans(m1, m3, marks[..]);
        ShrinksTrans(m0, m1, marks[..]);
        KeepsTrans(m1, m2, m3);
        KeepsTrans(m1, m3, marks[..]);
        KeepsTrans(m0, m1, marks[..]);
        assert UnitsFrom(m1, ws, r, u) == UnitThen(m1, ws, r, u, Row) == UnitThen(m2, ws, r, u, Column)
            == UnitThen(m3, ws, r, u, Box) == UnitsFrom(marks[..], ws, r, u + 1);
        u := u + 1;
      }
      ghost var m4 := marks[..];
      PointingPairs(ws);
      ShrinksTrans(m0, m4, marks[..]);
      KeepsTrans(m0, m4, marks[..]);
      singles := Singles(marks[..], solved[..]);
    }

    /**
     * One turn of the `while` loop of `solve`, from the top to a `continue`,
     * a `return` or the end of the body. `ws` is `working_set` and `before`
     * is `unsolved_before`; `ws'` and `before'` are their new values.
     */
    method Pass(ws: seq<int>, before: int) returns (end: PassEnd, ws': seq<int>, before': int)
      requires Valid() && IsConsistent() && Covering(ws, solved[..])
      requires |Unsolved(solved[..])| <= before && |ws| <= before
      modifies marks, solved
      ensures Valid()
      ensures Turn(end, marks[..], solved[..], ws', before') == TurnOf(old(marks[..]), old(solved[..]), ws, before)
      ensures Shrinks(old(marks[..]), marks[..]) && Grows(old(solved[..]), solved[..])
      ensures KeepsSolutions(old(marks[..]), marks[..])
      ensures end.Failed? ==> exists p :: 0 <= p < 81 && marks[p] == []
      ensures !end.Failed? ==> IsConsistent()
      ensures !end.Failed? ==> Advances(before, old(marks[..]), old(solved[..]), end, ws', before', marks[..], solved[..])
    {
      ghost var m0, s0 := marks[..], solved[..];
      var ok, singles := ProcessSingles(ws);
      if !ok {
        end, ws', before' := Failed, ws, before;
      } else if |singles| > 0 {
        SinglesAdvance(m0, s0, marks[..], solved[..], ws, before);
        end, ws', before' := Again, ws, before;
      } else {
        SinglesProgress(m0, s0, solved[..], ws);
        ghost var m1 := marks[..];
        end, ws', before' := ReduceTurn(before);
        ShrinksTrans(m0, m1, marks[..]);
        KeepsTrans(m0, m1, marks[..]);
      }
    }

    /**
     * `reduce_r` with pairs over the unsolved cells `ws` and, unless that
     * left new singles, `reduce_r` with triples over the same cells.
     */
    method ReduceRules(ws: seq<int>) returns (singles: seq<int>)
      requires Valid() && ws == Unsolved(solved[..])
      modifies marks
      ensures Valid() && marks[..] == Reduction(old(marks[..]), solved[..])
      ensures Shrinks(old(marks[..]), marks[..]) && KeepsSolutions(old(marks[..]), marks[..])
      ensures old(IsConsistent()) ==> IsConsistent()
      ensures singles == Singles(marks[..], solved[..])
    {
      UnsolvedSpec(solved[..]);
      ghost var m0 := marks[..];
      singles := ReduceR(ws, 2);
      if |singles| > 0 {
        return;
      }
      ghost var m1 := marks[..];
      singles := ReduceR(ws, 3);
      ShrinksTrans(m0, m1, marks[..]);
      KeepsTrans(m0, m1, marks[..]);
    }

    /**
     * The rest of a turn of `solve` once the single rules found nothing
     * new: the pair and triple rules over the unsolved cells, then the
     * progress check, which gives up when as many cells are unsolved as
     * at the end of the last turn.
     */
    method ReduceTurn(before: int) returns (end: PassEnd, ws': seq<int>, before': int)
      requires Valid() && IsConsistent() && Singles(marks[..], solved[..]) == []
      requires |Unsolved(solved[..])| <= before
      modifies marks
      ensures Valid() && ws' == Unsolved(solved[..])
      ensures marks[..] == Reduction(old(marks[..]), solved[..])
      ensures end == TurnEnd(Singles(marks[..], solved[..]) != [], |ws'|, before)
      ensures before' == if Singles(marks[..], solved[..]) != [] then before else |ws'|
      ensures Shrinks(old(marks[..]), marks[..]) && KeepsSolutions(old(marks[..]), marks[..])
      ensures IsConsistent()
      ensures Advances(before, old(marks[..]), old(solved[..]), end, ws', before', marks[..], solved[..])
    {
      ws' := Unsolved(solved[..]);
      var singles := ReduceRules(ws');
      TurnProgress(old(marks[..]), marks[..], solved[..], before);
      var after := |ws'|;
      end := TurnEnd(singles != [], after, before);
      before' := if singles != [] then before else after;
    }

    /**
     * `Puzzle.solve`: the single rules until they find nothing new, then
     * the pair rules, then the triple rules, each time starting over when
     * new singles appear; a pass that leaves as many cells unsolved as the
     * last one gives up.
     */
    method Solve() returns (result: Outcome)
      requires Valid() && IsConsistent()
      modifies marks, solved
      ensures Valid()
      ensures Shrinks(old(marks[..]), marks[..]) && Grows(old(solved[..]), solved[..])
      ensures result.Solution? ==>
                IsConsistent() && (forall p :: 0 <= p < 81 ==> solved[p]) &&
                |result.values| == 81 && (forall p :: 0 <= p < 81 ==> marks[p] == [result.values[p]])
      ensures result.Solution? ==> IsGrid(result.values)
      ensures result.Solution? ==> forall p :: 0 <= p < 81 && old(solved[p]) ==> old(marks[p]) == [result.values[p]]
      ensures result.Stuck? ==> IsConsistent() && Singles(marks[..], solved[..]) == []
      ensures result.Contradiction? ==> exists p :: 0 <= p < 81 && marks[p] == []
      ensures old(Unsolved(solved[..])) == [] ==> result.Stuck?
      ensures KeepsSolutions(old(marks[..]), marks[..])
      ensures result.Solution? ==> forall v :: IsGrid(v) && Allows(old(marks[..]), v) <==> v == result.values
      ensures result.Contradiction? ==> forall v :: IsGrid(v) ==> !Allows(old(marks[..]), v)
    {
      ghost var m0, s0 := marks[..], solved[..];
      var ws := Unsolved(solved[..]);
      UnsolvedSpec(solved[..]);
      var before := |ws|;
      var end := Again;
      while end.Again?
        invariant Valid()
        invariant Shrinks(m0, marks[..]) && Grows(s0, solved[..]) && KeepsSolutions(m0, marks[..])
        invariant end.Again? ==> Covering(ws, solved[..]) && |Unsolved(solved[..])| <= before && |ws| <= before
        invariant Unsolved(s0) == [] ==> (end.Again? ==> before == 0 && ws == []) && (end.Again? || end.Unchanged?)
        invariant !end.Failed? ==> IsConsistent()
        invariant end.Failed? ==> exists p :: 0 <= p < 81 && marks[p] == []
        invariant end.Unchanged? ==> Singles(marks[..], solved[..]) == []
        invariant end.Finished? ==> Unsolved(solved[..]) == []
        decreases if end.Again? then 1 else 0, Rank(before, marks[..], solved[..])
      {
        ghost var m1 := marks[..];
        end, ws, before := Pass(ws, before);
        ShrinksTrans(m0, m1, marks[..]);
        KeepsTrans(m0, m1, marks[..]);
      }
      match end
      case Failed =>
        EmptiedAllowsNone(m0, marks[..]);
        return Contradiction;
      case Unchanged => return Stuck;
      case Finished =>
        FinishedSolution(m0, s0, marks[..], solved[..]);
        return Solution(Values(marks[..]));
    }
  }

  /**
   * `Puzzle(seed).solve()`: a returned grid is the one and only completed
   * grid that agrees with the clues, and an emptied cell shows that no
   * completed grid does.
   */
  method SolveClues(seed: seq<Clue>) returns (result: Outcome)
    requires WellPosed(seed)
    ensures result.Solution? ==> forall v :: IsGrid(v) && Agrees(seed, v) <==> v == result.values
    ensures result.Contradiction? ==> forall v :: IsGrid(v) ==> !Agrees(seed, v)
  {
    var puzzle := new Puzzle(seed);
    ghost var m0 := puzzle.marks[..];
    assert puzzle.Valid() && puzzle.IsConsistent();
    result := puzzle.Solve();
    SeededClosedForm(seed);
    forall v | IsGrid(v) ensures Allows(m0, v) <==> Agrees(seed, v) {
      SeededAllows(seed, v);
    }
  }
}
